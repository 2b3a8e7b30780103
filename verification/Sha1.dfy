/** The streaming hash of sha1.c: a context updated in place, one octet at a time. */
module Sha1 {
  import opened Sha1Spec

  const WORD_RANGE: nat := 0x1_0000_0000

  /** The macro SHA1CircularShift: two shifts and an or. */
  function CircularShift(bits: nat, word: Word): Word
    requires 0 < bits < 32
  {
    ((word << bits) & 0xFFFFFFFF) | (word >> (32 - bits))
  }

  lemma CircularShiftRotates(word: Word)
    ensures CircularShift(1, word) == S(1, word)
    ensures CircularShift(5, word) == S(5, word)
    ensures CircularShift(30, word) == S(30, word)
  {
  }

  /** The shift-and-or packing of the first schedule loop. */
  function Pack(b0: Octet, b1: Octet, b2: Octet, b3: Octet): (w: Word)
    ensures w == WordOf(b0, b1, b2, b3)
  {
    ((b0 as Word) << 24) | ((b1 as Word) << 16) | ((b2 as Word) << 8) | (b3 as Word)
  }

  /** A 32-bit word as four octets, most significant first. */
  function Word4(word: nat): (f: seq<Octet>)
    ensures |f| == 4
  {
    [Low(word / 0x100_0000), Low(word / 0x1_0000), Low(word / 0x100), Low(word)]
  }

  class Context {
    const digest: array<Word>
    const messageBlock: array<Octet>
    var lengthLow: nat
    var lengthHigh: nat
    var index: nat
    var computed: bool
    var corrupted: bool

    ghost var stream: Stream
    ghost var blocks: nat  // whole blocks processed so far

    /** A context as the caller declares it: its fields hold nothing in particular until Reset. */
    constructor ()
      ensures Shape() && fresh(digest) && fresh(messageBlock)
    {
      digest := new Word[5];
      messageBlock := new Octet[64];
    }

    ghost predicate Shape() {
      digest.Length == 5 && messageBlock.Length == 64
    }

    ghost function Chain(): Digest
      reads digest
      requires Shape()
    {
      Digest(digest[0], digest[1], digest[2], digest[3], digest[4])
    }

    /** The split bit counter, as one number. */
    ghost function Bits(): nat
      reads this
    {
      WORD_RANGE * lengthHigh + lengthLow
    }

    /** The context holds exactly what its stream says. A corrupted context holds nothing usable. */
    ghost predicate Valid()
      reads this, digest, messageBlock
    {
      && Shape()
      && computed == stream.computed
      && corrupted == stream.corrupted
      && (!corrupted ==> Counted() && if computed then Delivered() else Buffered())
    }

    ghost predicate Counted()
      reads this
    {
      && lengthLow < WORD_RANGE
      && lengthHigh < WORD_RANGE
      && |stream.absorbed| < LIMIT
      && Bits() == 8 * |stream.absorbed|
    }

    /** The block holds the octets after the last whole block, and may just have been filled. */
    ghost predicate Holding()
      requires Shape()
      reads this, digest, messageBlock
    {
      var n := |stream.absorbed|;
      && index <= 64
      && n == 64 * blocks + index
      && messageBlock[..][..index] == stream.absorbed[n - index..]
      && Chain() == HashBlocks(INITIAL, stream.absorbed[..n - index])
    }

    ghost predicate Buffered()
      requires Shape()
      reads this, digest, messageBlock
    {
      Holding() && index < 64
    }

    ghost predicate Delivered()
      requires Shape()
      reads this, digest
    {
      index == 0 && Chain() == Sha1(stream.absorbed)
    }

    /** Before a result, the index is the number of octets absorbed modulo 64. */
    lemma IndexIsRemainder()
      requires Valid() && !computed && !corrupted
      ensures index == |stream.absorbed| % 64
      ensures Bits() == 8 * |stream.absorbed| < WORD_RANGE * WORD_RANGE
    {
      hide HashBlocks, Sha1;
      Remainder(blocks, index);
    }

    method Reset()
      requires Shape()
      modifies this, digest
      ensures Valid() && stream == FRESH
    {
      lengthLow := 0;
      lengthHigh := 0;
      index := 0;
      digest[0] := 0x67452301;
      digest[1] := 0xEFCDAB89;
      digest[2] := 0x98BADCFE;
      digest[3] := 0x10325476;
      digest[4] := 0xC3D2E1F0;
      computed := false;
      corrupted := false;
      stream := FRESH;
      blocks := 0;
    }

    method Result() returns (ok: bool)
      requires Valid()
      modifies this, digest, messageBlock
      ensures Valid() && stream == Finish(old(stream))
      ensures ok <==> !old(corrupted)
      ensures ok ==> Chain() == Sha1(stream.absorbed)
      ensures old(computed || corrupted) ==> unchanged(this, digest, messageBlock)
    {
      if corrupted {
        return false;
      }
      if !computed {
        PadMessage();
        computed := true;
        stream := Finish(stream);
      }
      return true;
    }

    method Input(message: seq<Octet>)
      requires Valid()
      modifies this, digest, messageBlock
      ensures Valid() && stream == Absorb(old(stream), message)
    {
      if |message| == 0 {
        return;
      }
      if computed || corrupted {
        corrupted := true;
        stream := stream.(corrupted := true);
        return;
      }
      var i := 0;
      while i < |message| && !corrupted
        invariant i <= |message| && Valid()
        invariant stream == Absorb(old(stream), message[..i])
        decreases |message| - i
      {
        AbsorbNext(old(stream), message, i);
        InputOctet(message[i]);
        i := i + 1;
      }
      AbsorbStops(old(stream), message, i);
    }

    /** One pass of the loop of SHA1Input. */
    method InputOctet(octet: Octet)
      requires Valid() && !computed && !corrupted
      modifies this, digest, messageBlock
      ensures Valid() && stream == AbsorbOne(old(stream), octet)
    {
      hide HashBlocks, Compress, Sha1;
      StoreOctet(octet);
      if index == 64 {
        TakeBlock();
      }
    }

    method StoreOctet(octet: Octet)
      requires Shape() && Counted() && Buffered() && !corrupted
      modifies this`index, this`lengthLow, this`lengthHigh, this`corrupted, this`stream, messageBlock
      ensures Holding() && stream == AbsorbOne(old(stream), octet)
      ensures corrupted == stream.corrupted && (!corrupted ==> Counted())
    {
      hide HashBlocks;
      BufferGrows(messageBlock[..], stream.absorbed, index, octet);
      messageBlock[index] := octet;
      assert messageBlock[..] == old(messageBlock[..])[index := octet];
      index := index + 1;
      CountOctet();
      stream := AbsorbOne(stream, octet);
    }

    /** Adds eight to the split bit counter; the counter coming round to zero corrupts the context. */
    method CountOctet()
      requires Counted()
      modifies this`lengthLow, this`lengthHigh, this`corrupted
      ensures corrupted == (old(corrupted) || |stream.absorbed| + 1 == LIMIT)
      ensures lengthLow < WORD_RANGE && lengthHigh < WORD_RANGE
      ensures |stream.absorbed| + 1 < LIMIT ==> Bits() == 8 * (|stream.absorbed| + 1)
    {
      CountUp(|stream.absorbed|, lengthHigh, lengthLow);
      lengthLow := (lengthLow + 8) % WORD_RANGE;
      if lengthLow == 0 {
        lengthHigh := (lengthHigh + 1) % WORD_RANGE;
        if lengthHigh == 0 {
          corrupted := true;
        }
      }
    }

    /** Processes the buffer that has just been filled. */
    method TakeBlock()
      requires Shape() && Holding() && index == 64
      modifies this`index, this`blocks, digest
      ensures Buffered()
    {
      hide HashBlocks, Compress;
      BlockFull(stream.absorbed);
      assert messageBlock[..][..64] == messageBlock[..];
      ProcessMessageBlock();
      blocks := blocks + 1;
      assert stream.absorbed[..|stream.absorbed|] == stream.absorbed;
    }

    /** Fills the buffered block with 0x80, zeros and the bit count, spilling into a second block when
        the buffer holds more than 55 octets. */
    method PadMessage()
      requires Shape() && Counted() && Buffered()
      modifies this`index, digest, messageBlock
      ensures index == 0 && Chain() == Sha1(stream.absorbed)
    {
      hide HashBlocks, Compress, Sha1, LengthField;
      if index > 55 {
        PadMarker(64);
        ghost var first := messageBlock[..];
        assert first == first[..64];
        ProcessMessageBlock();
        PadZeros(56);
        StoreLength();
        PadInTwoBlocks(stream.absorbed, blocks, old(index), first, messageBlock[..]);
      } else {
        PadMarker(56);
        StoreLength();
        PadInOneBlock(stream.absorbed, blocks, old(index), messageBlock[..]);
      }
      ProcessMessageBlock();
    }

    /** The marker octet, then zeros up to the limit. */
    method PadMarker(limit: nat)
      requires Shape() && index < limit <= 64
      modifies this`index, messageBlock
      ensures index == limit
      ensures messageBlock[..][..limit] == old(messageBlock[..][..index]) + [0x80] + Zeros(limit - old(index) - 1)
    {
      messageBlock[index] := 0x80;
      assert messageBlock[..][..index + 1] == old(messageBlock[..][..index]) + [0x80];
      index := index + 1;
      PadZeros(limit);
    }

    method PadZeros(limit: nat)
      requires Shape() && index <= limit <= 64
      modifies this`index, messageBlock
      ensures index == limit
      ensures messageBlock[..][..limit] == old(messageBlock[..][..index]) + Zeros(limit - old(index))
    {
      while index < limit
        invariant old(index) <= index <= limit
        invariant messageBlock[..][..index] == old(messageBlock[..][..index]) + Zeros(index - old(index))
      {
        messageBlock[index] := 0;
        index := index + 1;
      }
    }

    /** The split counter as the last eight octets of the block. */
    method StoreLength()
      requires Shape() && lengthLow < WORD_RANGE && lengthHigh < WORD_RANGE
      modifies messageBlock
      ensures messageBlock[..] == old(messageBlock[..][..56]) + LengthField(Bits())
    {
      hide LengthField, Word4;
      StoreWord(56, lengthHigh);
      StoreWord(60, lengthLow);
      SplitLength(lengthHigh, lengthLow);
    }

    method StoreWord(at: nat, word: nat)
      requires Shape() && at + 4 <= 64
      modifies messageBlock
      ensures messageBlock[..] == old(messageBlock[..][..at]) + Word4(word) + old(messageBlock[..][at + 4..])
    {
      hide Low;
      messageBlock[at] := Low(word / 0x100_0000);
      messageBlock[at + 1] := Low(word / 0x1_0000);
      messageBlock[at + 2] := Low(word / 0x100);
      messageBlock[at + 3] := Low(word);
    }

    /** Fills the schedule: 16 packed words, then 64 computed from them. */
    method ExpandSchedule() returns (w: array<Word>)
      requires Shape()
      ensures fresh(w) && w[..] == Schedule(messageBlock[..])
    {
      hide CircularShift, Pack, W;
      ghost var block := messageBlock[..];
      w := new Word[80];
      var t := 0;
      while t < 16
        invariant t <= 16 && messageBlock[..] == block
        invariant forall i :: 0 <= i < t ==> w[i] == W(block, i)
      {
        FirstWords(block, t);
        w[t] := Pack(messageBlock[t * 4], messageBlock[t * 4 + 1], messageBlock[t * 4 + 2], messageBlock[t * 4 + 3]);
        t := t + 1;
      }
      while t < 80
        invariant 16 <= t <= 80 && messageBlock[..] == block
        invariant forall i :: 0 <= i < t ==> w[i] == W(block, i)
      {
        var x := w[t - 3] ^ w[t - 8] ^ w[t - 14] ^ w[t - 16];
        LaterWords(block, t);
        w[t] := CircularShift(1, x);
        t := t + 1;
      }
    }

    method ProcessMessageBlock()
      requires Shape()
      modifies digest, this`index
      ensures Chain() == Compress(old(Chain()), old(messageBlock[..]))
      ensures index == 0
    {
      hide Add, F, K, CircularShift, S, Round, Rounds, W;
      ghost var h := Chain();
      var w := ExpandSchedule();
      ghost var s := w[..];
      var a, b, c, d, e := digest[0], digest[1], digest[2], digest[3], digest[4];
      var t := 0;
      assert Digest(a, b, c, d, e) == Rounds(h, s[..0]) by { NoRounds(h, s); }
      while t < 20
        invariant 0 <= t <= 20 && w[..] == s
        invariant Digest(a, b, c, d, e) == Rounds(h, s[..t]) && Chain() == h
      {
        var temp := Add(Add(Add(Add(CircularShift(5, a), (b & c) | (!b & d)), e), w[t]), 0x5A827999);
        temp := temp & 0xFFFFFFFF;
        FirstPhase(t, b, c, d);
        NextRound(h, s, t, Digest(a, b, c, d, e), temp);
        e, d, c, b, a := d, c, CircularShift(30, b), a, temp;
        t := t + 1;
      }
      while t < 40
        invariant 20 <= t <= 40 && w[..] == s
        invariant Digest(a, b, c, d, e) == Rounds(h, s[..t]) && Chain() == h
      {
        var temp := Add(Add(Add(Add(CircularShift(5, a), b ^ c ^ d), e), w[t]), 0x6ED9EBA1);
        temp := temp & 0xFFFFFFFF;
        SecondPhase(t, b, c, d);
        NextRound(h, s, t, Digest(a, b, c, d, e), temp);
        e, d, c, b, a := d, c, CircularShift(30, b), a, temp;
        t := t + 1;
      }
      while t < 60
        invariant 40 <= t <= 60 && w[..] == s
        invariant Digest(a, b, c, d, e) == Rounds(h, s[..t]) && Chain() == h
      {
        var temp := Add(Add(Add(Add(CircularShift(5, a), (b & c) | (b & d) | (c & d)), e), w[t]), 0x8F1BBCDC);
        temp := temp & 0xFFFFFFFF;
        ThirdPhase(t, b, c, d);
        NextRound(h, s, t, Digest(a, b, c, d, e), temp);
        e, d, c, b, a := d, c, CircularShift(30, b), a, temp;
        t := t + 1;
      }
      while t < 80
        invariant 60 <= t <= 80 && w[..] == s
        invariant Digest(a, b, c, d, e) == Rounds(h, s[..t]) && Chain() == h
      {
        var temp := Add(Add(Add(Add(CircularShift(5, a), b ^ c ^ d), e), w[t]), 0xCA62C1D6);
        temp := temp & 0xFFFFFFFF;
        FourthPhase(t, b, c, d);
        NextRound(h, s, t, Digest(a, b, c, d, e), temp);
        e, d, c, b, a := d, c, CircularShift(30, b), a, temp;
        t := t + 1;
      }
      assert s[..80] == s;
      digest[0] := Add(digest[0], a) & 0xFFFFFFFF;
      digest[1] := Add(digest[1], b) & 0xFFFFFFFF;
      digest[2] := Add(digest[2], c) & 0xFFFFFFFF;
      digest[3] := Add(digest[3], d) & 0xFFFFFFFF;
      digest[4] := Add(digest[4], e) & 0xFFFFFFFF;
      index := 0;
    }
  }

  lemma {:induction false} FirstWords(block: seq<Octet>, t: nat)
    requires |block| == 64 && t < 16
    ensures W(block, t) == Pack(block[t * 4], block[t * 4 + 1], block[t * 4 + 2], block[t * 4 + 3])
  {
  }

  lemma LaterWords(block: seq<Octet>, t: nat)
    requires |block| == 64 && 16 <= t
    ensures W(block, t) == CircularShift(1, W(block, t - 3) ^ W(block, t - 8) ^ W(block, t - 14) ^ W(block, t - 16))
  {
    hide CircularShift, S;
    CircularShiftRotates(W(block, t - 3) ^ W(block, t - 8) ^ W(block, t - 14) ^ W(block, t - 16));
  }

  lemma AbsorbNext(s: Stream, message: seq<Octet>, i: nat)
    requires i < |message|
    requires !s.computed && |s.absorbed| < LIMIT && !Absorb(s, message[..i]).corrupted
    ensures Absorb(s, message[..i + 1]) == AbsorbOne(Absorb(s, message[..i]), message[i])
  {
    assert message[..i + 1] == message[..i] + [message[i]];
    assert s.absorbed + message[..i + 1] == s.absorbed + message[..i] + [message[i]];
  }

  lemma AbsorbStops(s: Stream, message: seq<Octet>, i: nat)
    requires message != [] && i <= |message| && !s.computed && !s.corrupted
    requires i == |message| || Absorb(s, message[..i]).corrupted
    ensures Absorb(s, message[..i]) == Absorb(s, message)
  {
    if i == |message| {
      assert message[..i] == message;
    } else {
      assert (s.absorbed + message[..i])[..LIMIT] == (s.absorbed + message)[..LIMIT];
    }
  }

  /** The split counter: adding one octet carries from the low to the high word, and leaves the high
      word exactly when the message reaches its limit. */
  lemma CountUp(n: nat, high: nat, low: nat)
    requires n < LIMIT && low < WORD_RANGE && WORD_RANGE * high + low == 8 * n
    ensures low + 8 <= WORD_RANGE
    ensures low + 8 == WORD_RANGE && high + 1 == WORD_RANGE <==> n + 1 == LIMIT
  {
  }

  /** The two 32-bit halves of the counter give the eight octets of the 64-bit length. */
  lemma SplitLength(high: nat, low: nat)
    requires high < WORD_RANGE && low < WORD_RANGE
    ensures LengthField(WORD_RANGE * high + low) == Word4(high) + Word4(low)
  {
    hide Low;
    var bits := WORD_RANGE * high + low;
    assert bits / 0x100_0000_0000_0000 == high / 0x100_0000;
    assert bits / 0x1_0000_0000_0000 == high / 0x1_0000;
    assert bits / 0x100_0000_0000 == high / 0x100;
    assert bits / 0x1_0000_0000 == high;
    assert bits / 0x100_0000 == 0x100 * high + low / 0x100_0000;
    assert bits / 0x1_0000 == 0x100 * (0x100 * high) + low / 0x1_0000;
    assert bits / 0x100 == 0x100 * (0x1_0000 * high) + low / 0x100;
    LowIgnoresHigherOctets(high, low / 0x100_0000);
    LowIgnoresHigherOctets(0x100 * high, low / 0x1_0000);
    LowIgnoresHigherOctets(0x1_0000 * high, low / 0x100);
    LowIgnoresHigherOctets(0x100_0000 * high, low);
  }

  lemma LowIgnoresHigherOctets(q: nat, r: nat)
    ensures Low(0x100 * q + r) == Low(r)
  {
    assert (0x100 * q + r) % 0x100 == r % 0x100;
  }

  lemma Remainder(blocks: nat, index: nat)
    requires index < 64
    ensures (64 * blocks + index) % 64 == index
  {
  }

  lemma BufferGrows(block: seq<Octet>, absorbed: seq<Octet>, index: nat, octet: Octet)
    requires index < |block| && index <= |absorbed|
    requires block[..index] == absorbed[|absorbed| - index..]
    ensures block[index := octet][..index + 1] == (absorbed + [octet])[|absorbed| - index..]
    ensures (absorbed + [octet])[..|absorbed| - index] == absorbed[..|absorbed| - index]
  {
  }

  lemma {:induction false} BlockFull(absorbed: seq<Octet>)
    requires |absorbed| >= 64
    ensures HashBlocks(INITIAL, absorbed)
         == Compress(HashBlocks(INITIAL, absorbed[..|absorbed| - 64]), absorbed[|absorbed| - 64..])
  {
    hide Compress;
  }

  lemma {:induction false} NoRounds(h: Digest, s: seq<Word>)
    ensures Rounds(h, s[..0]) == h
  {
  }

  // What the four loops spell out as f_t and K_t.

  lemma FirstPhase(t: nat, b: Word, c: Word, d: Word)
    requires t < 20
    ensures F(t, b, c, d) == (b & c) | (!b & d) && K(t) == 0x5A827999
  {
  }

  lemma SecondPhase(t: nat, b: Word, c: Word, d: Word)
    requires 20 <= t < 40
    ensures F(t, b, c, d) == b ^ c ^ d && K(t) == 0x6ED9EBA1
  {
  }

  lemma ThirdPhase(t: nat, b: Word, c: Word, d: Word)
    requires 40 <= t < 60
    ensures F(t, b, c, d) == (b & c) | (b & d) | (c & d) && K(t) == 0x8F1BBCDC
  {
  }

  lemma FourthPhase(t: nat, b: Word, c: Word, d: Word)
    requires 60 <= t < 80
    ensures F(t, b, c, d) == b ^ c ^ d && K(t) == 0xCA62C1D6
  {
  }

  lemma {:induction false} RoundsStep(h: Digest, s: seq<Word>, t: nat)
    requires t < |s|
    ensures Rounds(h, s[..t + 1]) == Round(Rounds(h, s[..t]), t, s[t])
  {
    hide Round;
    assert s[..t + 1][..t] == s[..t];
  }

  /** One pass of a round loop is one round of the specification. */
  lemma {:induction false} NextRound(h: Digest, s: seq<Word>, t: nat, r: Digest, temp: Word)
    requires t < |s| && r == Rounds(h, s[..t])
    requires temp == Add(Add(Add(Add(CircularShift(5, r.a), F(t, r.b, r.c, r.d)), r.e), s[t]), K(t))
    ensures Digest(temp, r.a, CircularShift(30, r.b), r.c, r.d) == Rounds(h, s[..t + 1])
  {
    hide Rounds, F, K, Add, CircularShift, S;
    CircularShiftRotates(r.a);
    CircularShiftRotates(r.b);
    RoundsStep(h, s, t);
  }
}
