/** The hash of FIPS PUB 180-1, sections 3 to 7, on whole messages of octets.
    Nothing here buffers, counts or updates in place: this is what the streaming
    code of sha1.c is measured against. */
module Sha1Spec {

  type Octet = bv8
  type Word = bv32

  /** The five words H0..H4, and equally the five word buffers A..E. */
  datatype Digest = Digest(a: Word, b: Word, c: Word, d: Word, e: Word)

  const INITIAL := Digest(0x67452301, 0xEFCDAB89, 0x98BADCFE, 0x10325476, 0xC3D2E1F0)

  /** Octets a message must stay below: 2^64 bits. */
  const LIMIT: nat := 0x2000_0000_0000_0000

  /** Section 3: addition of words, modulo 2^32. */
  function Add(x: Word, y: Word): Word {
    x + y
  }

  /** Section 3: the circular left shift of a word. */
  function S(n: nat, x: Word): Word
    requires n < 32
  {
    x.RotateLeft(n)
  }

  // Section 5: the logical functions, chosen by the range of t.
  function F(t: nat, b: Word, c: Word, d: Word): Word {
    if t < 20 then (b & c) | (!b & d)
    else if t < 40 then b ^ c ^ d
    else if t < 60 then (b & c) | (b & d) | (c & d)
    else b ^ c ^ d
  }

  // Section 6: the constants, chosen by the range of t.
  function K(t: nat): Word {
    if t < 20 then 0x5A827999
    else if t < 40 then 0x6ED9EBA1
    else if t < 60 then 0x8F1BBCDC
    else 0xCA62C1D6
  }

  /** Section 2: four octets read as one word, the leftmost octet most significant. */
  function WordOf(b0: Octet, b1: Octet, b2: Octet, b3: Octet): Word {
    (b0 as Word) * 0x1000000 + (b1 as Word) * 0x10000 + (b2 as Word) * 0x100 + (b3 as Word)
  }

  /** Section 7 (a) and (b): word t of the message schedule of a block. */
  function W(block: seq<Octet>, t: nat): Word
    requires |block| == 64
  {
    if t < 16 then WordOf(block[4 * t], block[4 * t + 1], block[4 * t + 2], block[4 * t + 3])
    else S(1, W(block, t - 3) ^ W(block, t - 8) ^ W(block, t - 14) ^ W(block, t - 16))
  }

  function Schedule(block: seq<Octet>): (w: seq<Word>)
    requires |block| == 64
    ensures |w| == 80
  {
    seq(80, t requires 0 <= t < 80 => W(block, t))
  }

  /** Section 7 (d): one step of the main loop. */
  function Round(s: Digest, t: nat, w: Word): Digest {
    var temp := Add(Add(Add(Add(S(5, s.a), F(t, s.b, s.c, s.d)), s.e), w), K(t));
    Digest(temp, s.a, S(30, s.b), s.c, s.d)
  }

  /** The word buffers after one step for each of the words given, from t = 0. */
  function Rounds(h: Digest, w: seq<Word>): Digest {
    if w == [] then h
    else Round(Rounds(h, w[..|w| - 1]), |w| - 1, w[|w| - 1])
  }

  /** Section 7 (c) to (e): the chaining value after one more block. */
  function Compress(h: Digest, block: seq<Octet>): Digest
    requires |block| == 64
  {
    var s := Rounds(h, Schedule(block));
    Digest(Add(h.a, s.a), Add(h.b, s.b), Add(h.c, s.c), Add(h.d, s.d), Add(h.e, s.e))
  }

  /** The chaining value after every block of data, first to last. */
  function HashBlocks(h: Digest, data: seq<Octet>): Digest {
    if |data| < 64 then h
    else Compress(HashBlocks(h, data[..|data| - 64]), data[|data| - 64..])
  }

  /** Section 4: the number of zero octets that leaves room for exactly the length field. */
  function ZeroCount(length: nat): nat {
    (55 - length) % 64
  }

  function Zeros(n: nat): (z: seq<Octet>)
    ensures |z| == n
    ensures forall i :: 0 <= i < n ==> z[i] == 0
  {
    seq(n, _ => 0)
  }

  /** The low-order octet of a number. */
  function Low(x: nat): Octet {
    (x % 0x100) as Octet
  }

  /** Section 4: a number of bits as eight octets, most significant first. */
  function LengthField(bits: nat): (f: seq<Octet>)
    ensures |f| == 8
  {
    [Low(bits / 0x100_0000_0000_0000), Low(bits / 0x1_0000_0000_0000), Low(bits / 0x100_0000_0000),
     Low(bits / 0x1_0000_0000), Low(bits / 0x100_0000), Low(bits / 0x1_0000), Low(bits / 0x100), Low(bits)]
  }

  /** Section 4: what is appended to a message of the given number of octets. */
  function Padding(length: nat): (p: seq<Octet>) {
    [0x80] + Zeros(ZeroCount(length)) + LengthField(8 * length)
  }

  function Pad(m: seq<Octet>): (p: seq<Octet>)
    ensures |p| % 64 == 0
  {
    ZeroCountEndsBlock(|m|);
    m + Padding(|m|)
  }

  lemma ZeroCountEndsBlock(length: nat)
    ensures (length + 9 + ZeroCount(length)) % 64 == 0
  {
  }

  function Sha1(m: seq<Octet>): Digest {
    HashBlocks(INITIAL, Pad(m))
  }

  /** What the streaming interface promises to have done: the octets absorbed since the last
      reset, whether the digest has been delivered, and whether the context was misused. */
  datatype Stream = Stream(absorbed: seq<Octet>, computed: bool, corrupted: bool)

  const FRESH := Stream([], false, false)

  function AbsorbOne(s: Stream, octet: Octet): Stream {
    Stream(s.absorbed + [octet], s.computed, |s.absorbed| + 1 == LIMIT)
  }

  /** The effect of SHA1Input: octets are taken up to the one that reaches the limit. */
  function Absorb(s: Stream, octets: seq<Octet>): Stream {
    if octets == [] then s
    else if s.computed || s.corrupted then s.(corrupted := true)
    else if |s.absorbed| + |octets| < LIMIT then s.(absorbed := s.absorbed + octets)
    else s.(absorbed := (s.absorbed + octets)[..LIMIT], corrupted := true)
  }

  /** The effect of SHA1Result. */
  function Finish(s: Stream): Stream {
    if s.corrupted then s else s.(computed := true)
  }

  // ---------- Properties of the specification ----------

  lemma {:induction false} HashBlocksAppend(h: Digest, x: seq<Octet>, y: seq<Octet>, blocks: nat)
    requires |y| == 64 * blocks
    ensures HashBlocks(h, x + y) == HashBlocks(HashBlocks(h, x), y)
    decreases blocks
  {
    hide Compress;
    if blocks == 0 {
      assert x + y == x;
    } else {
      var n := |x + y| - 64;
      assert (x + y)[..n] == x + y[..|y| - 64];
      assert (x + y)[n..] == y[|y| - 64..];
      HashBlocksAppend(h, x, y[..|y| - 64], blocks - 1);
    }
  }

  /** Octets read as a number, most significant first. */
  function Number(f: seq<Octet>): nat {
    if f == [] then 0 else 0x100 * Number(f[..|f| - 1]) + f[|f| - 1] as nat
  }

  lemma {:induction false} LastOctet(f: seq<Octet>)
    requires f != []
    ensures Number(f) / 0x100 == Number(f[..|f| - 1]) && Low(Number(f)) == f[|f| - 1]
  {
    hide Low;
    LowOf(Number(f), f[|f| - 1]);
  }

  lemma LowOf(x: nat, octet: Octet)
    requires x % 0x100 == octet as nat
    ensures Low(x) == octet
  {
  }

  lemma ShiftsCompose(x: nat)
    ensures x / 0x1_0000 == x / 0x100 / 0x100 && x / 0x100_0000 == x / 0x1_0000 / 0x100
    ensures x / 0x1_0000_0000 == x / 0x100_0000 / 0x100 && x / 0x100_0000_0000 == x / 0x1_0000_0000 / 0x100
    ensures x / 0x1_0000_0000_0000 == x / 0x100_0000_0000 / 0x100
    ensures x / 0x100_0000_0000_0000 == x / 0x1_0000_0000_0000 / 0x100
  {
  }

  /** The length field is the number of bits, octet by octet: it is read back as it was written. */
  lemma {:induction false} LengthFieldReads(f: seq<Octet>)
    requires |f| == 8
    ensures LengthField(Number(f)) == f
  {
    hide Low, Number, LengthField;
    ShiftsCompose(Number(f));
    assert f[..8] == f;
    Octets(f, 8);
    LengthOctets(Number(f), Number(f[..7]), Number(f[..6]), Number(f[..5]), Number(f[..4]), Number(f[..3]),
      Number(f[..2]), Number(f[..1]));
    assert f == [f[0], f[1], f[2], f[3], f[4], f[5], f[6], f[7]];
  }

  lemma {:induction false} Octets(f: seq<Octet>, k: nat)
    requires k <= |f|
    ensures forall j :: 0 <= j < k ==> Number(f[..j + 1]) / 0x100 == Number(f[..j]) && Low(Number(f[..j + 1])) == f[j]
  {
    hide Low, Number;
    if k > 0 {
      Octets(f, k - 1);
      LastOctet(f[..k]);
      assert f[..k][..k - 1] == f[..k - 1];
    }
  }

  lemma LengthOctets(x: nat, x1: nat, x2: nat, x3: nat, x4: nat, x5: nat, x6: nat, x7: nat)
    requires x1 == x / 0x100 && x2 == x / 0x1_0000 && x3 == x / 0x100_0000 && x4 == x / 0x1_0000_0000
    requires x5 == x / 0x100_0000_0000 && x6 == x / 0x1_0000_0000_0000 && x7 == x / 0x100_0000_0000_0000
    ensures LengthField(x) == [Low(x7), Low(x6), Low(x5), Low(x4), Low(x3), Low(x2), Low(x1), Low(x)]
  {
  }

  /** A last partial block of at most 55 octets is completed by the padding, a longer one is followed by
      another block. */
  lemma ZeroCountByRange(length: nat)
    ensures ZeroCount(length) == (if length % 64 <= 55 then 55 else 119) - length % 64
  {
  }

  /** Padding that fits in the current block. */
  lemma PadInOneBlock(m: seq<Octet>, blocks: nat, index: nat, last: seq<Octet>)
    requires |m| == 64 * blocks + index && index <= 55
    requires last == m[|m| - index..] + [0x80] + Zeros(55 - index) + LengthField(8 * |m|)
    ensures Compress(HashBlocks(INITIAL, m[..|m| - index]), last) == Sha1(m)
  {
    hide HashBlocks, Compress, ZeroCount, LengthField;
    ZeroCountByRange(|m|);
    AppendBlock(INITIAL, m[..|m| - index], last);
    assert m[..|m| - index] + last == Pad(m);
  }

  /** Padding that spills into a second block. */
  lemma PadInTwoBlocks(m: seq<Octet>, blocks: nat, index: nat, first: seq<Octet>, last: seq<Octet>)
    requires |m| == 64 * blocks + index && 55 < index < 64
    requires first == m[|m| - index..] + [0x80] + Zeros(63 - index)
    requires last == Zeros(56) + LengthField(8 * |m|)
    ensures Compress(Compress(HashBlocks(INITIAL, m[..|m| - index]), first), last) == Sha1(m)
  {
    hide HashBlocks, Compress, ZeroCount, LengthField;
    ZeroCountByRange(|m|);
    AppendBlock(INITIAL, m[..|m| - index], first);
    AppendBlock(INITIAL, m[..|m| - index] + first, last);
    assert m[..|m| - index] + first + last == Pad(m);
  }

  lemma {:induction false} AppendBlock(h: Digest, data: seq<Octet>, block: seq<Octet>)
    requires |block| == 64
    ensures HashBlocks(h, data + block) == Compress(HashBlocks(h, data), block)
  {
    hide Compress;
    var n := |data + block| - 64;
    assert (data + block)[..n] == data;
    assert (data + block)[n..] == block;
  }

  /** Drops trailing zero octets. */
  function StripZeros(s: seq<Octet>): (r: seq<Octet>)
    ensures |r| <= |s|
  {
    if s == [] || s[|s| - 1] != 0 then s else StripZeros(s[..|s| - 1])
  }

  /** Reads a message back from its padded form: drop the length field, the zeros and the 1 bit. */
  function Unpad(p: seq<Octet>): seq<Octet>
    requires |p| >= 9
  {
    var r := StripZeros(p[..|p| - 8]);
    if r == [] then [] else r[..|r| - 1]
  }

  lemma {:induction false} StripZerosStopsAtOne(s: seq<Octet>, n: nat)
    ensures StripZeros(s + [0x80] + Zeros(n)) == s + [0x80]
    decreases n
  {
    var t := s + [0x80] + Zeros(n);
    if n == 0 {
      assert t == s + [0x80];
    } else {
      assert t[..|t| - 1] == s + [0x80] + Zeros(n - 1);
      StripZerosStopsAtOne(s, n - 1);
    }
  }

  /** Padding loses nothing: every message can be read back from its padded form. */
  lemma UnpadInvertsPad(m: seq<Octet>)
    ensures |Pad(m)| >= 9 && Unpad(Pad(m)) == m
  {
    var p := Pad(m);
    assert p[..|p| - 8] == m + [0x80] + Zeros(ZeroCount(|m|));
    StripZerosStopsAtOne(m, ZeroCount(|m|));
    assert (m + [0x80])[..|m|] == m;
  }

  lemma {:induction false} PadIsInjective(m: seq<Octet>)
    ensures forall n: seq<Octet> {:trigger Pad(n)} :: Pad(n) == Pad(m) ==> n == m
  {
    forall n: seq<Octet> | Pad(n) == Pad(m) ensures n == m {
      UnpadInvertsPad(m);
      UnpadInvertsPad(n);
    }
  }

  /** The padding ends a block, and spills into a second one exactly when the last partial block
      holds more than 55 octets; it is never longer than it must be. */
  lemma PaddingSpills(length: nat)
    ensures |Padding(length)| == (if length % 64 <= 55 then 64 else 128) - length % 64
  {
    ZeroCountByRange(length);
    assert |Padding(length)| == 9 + ZeroCount(length);
  }
}
