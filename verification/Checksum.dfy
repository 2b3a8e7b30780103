/** The checksum of sr_utils.c against the Internet checksum of RFC 1071. */
module Checksum {
  import opened Bytes

  // ---------- RFC 1071, sections 1 and 2 ----------

  /** One's-complement addition of 16-bit words: the carry out is added back in. */
  function OnesAdd(x: Word16, y: Word16): Word16 {
    if x + y > 0xffff then x + y - 0xffff else x + y
  }

  /** Adjacent bytes paired into words; a last odd byte is padded with a zero byte. */
  function Words(data: seq<Byte>): seq<Word16> {
    if |data| == 0 then []
    else if |data| == 1 then [Word(data[0], 0)]
    else [Word(data[0], data[1])] + Words(data[2..])
  }

  function OnesSum(words: seq<Word16>): Word16 {
    if words == [] then 0 else OnesAdd(words[0], OnesSum(words[1..]))
  }

  function Rfc1071(data: seq<Byte>): Word16 {
    0xffff - OnesSum(Words(data))
  }

  /** The receiver's rule: the sum over everything, checksum included, is all ones. */
  predicate ReceiverAccepts(data: seq<Byte>) {
    OnesSum(Words(data)) == 0xffff
  }

  // ---------- What the code computes ----------

  const ACCUMULATOR: nat := 0x1_0000_0000

  /** The plain sum of the words of data, with no bound on its size. */
  function RawSum(data: seq<Byte>): nat {
    if |data| == 0 then 0
    else if |data| == 1 then Word(data[0], 0)
    else Word(data[0], data[1]) + RawSum(data[2..])
  }

  /** The 16-bit value a sum folds to: zero for zero, otherwise the residue modulo 0xffff in 1..0xffff. */
  function Folded(sum: nat): Word16 {
    if sum == 0 then 0 else (sum - 1) % 0xffff + 1
  }

  /** Complement, with zero replaced by all ones. */
  function Complement(sum: Word16): Word16 {
    if sum == 0xffff then 0xffff else 0xffff - sum
  }

  /** What the accumulator keeps of a sum. */
  function Wrap(sum: nat): (r: nat)
    ensures r < ACCUMULATOR && (sum < ACCUMULATOR ==> r == sum)
  {
    sum % ACCUMULATOR
  }

  /** What cksum returns, in network byte order: the accumulator keeps 32 bits of the sum. */
  function Cksum(data: seq<Byte>): Word16 {
    Complement(Folded(Wrap(RawSum(data))))
  }

  /** The len bytes at data[start]; none if len is negative. */
  ghost function Summed(data: array<Byte>, start: nat, len: int): seq<Byte>
    requires start <= data.Length && start + len <= data.Length
    reads data
  {
    if len < 0 then [] else data[start..start + len]
  }

  /** cksum over the len bytes at data[start]. */
  method ComputeCksum(order: HostOrder, data: array<Byte>, start: nat, len: int) returns (result: Word16)
    requires start <= data.Length && start + len <= data.Length
    ensures result == Htons(order, Cksum(Summed(data, start, len)))
  {
    hide Htons, Folded, RawSum, Wrap;
    ghost var all := Summed(data, start, len);
    var sum := Accumulate(data, start, len);
    while sum > 0xffff
      invariant 0 <= sum < ACCUMULATOR
      invariant Folded(sum) == Folded(Wrap(RawSum(all)))
    {
      FoldOnce(sum);
      sum := sum / 0x1_0000 + sum % 0x1_0000;
    }
    FoldedIsSmall(sum);
    var complement := (0xffff_ffff - sum) % 0x1_0000;
    var converted := Htons(order, complement);
    HtonsIsInvolution(order, complement);
    HtonsFixesExtremes(order);
    result := if converted != 0 then converted else 0xffff;
  }

  /** The two summing steps of cksum: whole words, then a last odd byte. */
  method Accumulate(data: array<Byte>, start: nat, len: int) returns (sum: nat)
    requires start <= data.Length && start + len <= data.Length
    ensures sum == Wrap(RawSum(Summed(data, start, len)))
  {
    hide RawSum, Summed, Wrap;
    var at: nat, left := start, len;
    sum := 0;
    ghost var total := RawSum(Summed(data, start, len));
    while left >= 2
      invariant at <= data.Length && at + left == start + len
      invariant sum < ACCUMULATOR && Wrap(sum + RawSum(Summed(data, at, left))) == Wrap(total)
    {
      FirstWord(data, at, left);
      WrapEarly(sum, Word(data[at], data[at + 1]), RawSum(Summed(data, at + 2, left - 2)));
      sum := Wrap(sum + Word(data[at], data[at + 1]));
      at, left := at + 2, left - 2;
    }
    LastByte(data, at, left);
    if left > 0 {
      sum := Wrap(sum + Word(data[at], 0));
    }
  }

  lemma {:induction false} FirstWord(data: array<Byte>, at: nat, left: int)
    requires left >= 2 && at + left <= data.Length
    ensures RawSum(Summed(data, at, left)) == Word(data[at], data[at + 1]) + RawSum(Summed(data, at + 2, left - 2))
  {
    assert data[at..at + left][2..] == data[at + 2..at + left];
  }

  lemma {:induction false} LastByte(data: array<Byte>, at: nat, left: int)
    requires left < 2 && at <= data.Length && at + left <= data.Length
    ensures RawSum(Summed(data, at, left)) == if left == 1 then Word(data[at], 0) else 0
  {
  }

  lemma WrapEarly(sum: nat, word: nat, rest: nat)
    ensures Wrap(Wrap(sum + word) + rest) == Wrap(sum + (word + rest))
  {
    var q := (sum + word) / ACCUMULATOR;
    assert sum + (word + rest) == ACCUMULATOR * q + ((sum + word) % ACCUMULATOR + rest);
  }

  lemma FoldOnce(sum: nat)
    requires sum > 0xffff
    ensures sum / 0x1_0000 + sum % 0x1_0000 < sum
    ensures Folded(sum / 0x1_0000 + sum % 0x1_0000) == Folded(sum)
  {
    var high, low := sum / 0x1_0000, sum % 0x1_0000;
    assert sum - 1 == 0xffff * high + (high + low - 1);
  }

  lemma FoldedIsSmall(sum: nat)
    requires sum <= 0xffff
    ensures Folded(sum) == sum
  {
  }
}
