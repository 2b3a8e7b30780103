/** An Ethernet frame carrying an IP header, its validation and its rewriting for the next hop (sr_ip.c). */
module IpFrame {
  import opened Bytes
  import opened Checksum
  import opened ChecksumProofs

  type Ip = x: int | 0 <= x < 0x1_0000_0000
  type Mac = m: seq<Byte> | |m| == 6 witness [0, 0, 0, 0, 0, 0]

  // Ethernet header: destination 0..6, source 6..12, type 12..14. IP header: 14..34.
  const ETHERNET: nat := 14
  const MIN_FRAME: nat := 34
  const TTL: nat := 22
  const TTL_WORD: nat := 4   // of the IP header: time to live and protocol
  const SUM_WORD: nat := 12  // of the frame: the header checksum, bytes 24 and 25

  predicate IsFrame(b: seq<Byte>) {
    |b| >= MIN_FRAME
  }

  function Header(b: seq<Byte>): (h: seq<Byte>)
    requires IsFrame(b)
    ensures |h| == 20
  {
    b[ETHERNET..MIN_FRAME]
  }

  function Destination(b: seq<Byte>): Ip
    requires IsFrame(b)
  {
    0x1_0000 * WordAt(b, 15) + WordAt(b, 16)
  }

  /** The frame with its hosts replaced and its time to live one less. */
  function Aged(b: seq<Byte>, source: Mac, dest: Mac): (r: seq<Byte>)
    requires IsFrame(b) && b[TTL] > 0
    ensures |r| == |b|
  {
    (dest + source + b[12..])[TTL := b[TTL] - 1]
  }

  /** The frame as it is sent on: hosts replaced, time to live one less, checksum recomputed. */
  function Rewritten(b: seq<Byte>, source: Mac, dest: Mac): (r: seq<Byte>)
    requires IsFrame(b) && b[TTL] > 0
    ensures |r| == |b|
  {
    var zeroed := PutWord(Aged(b, source, dest), SUM_WORD, 0);
    PutWord(zeroed, SUM_WORD, Cksum(Header(zeroed)))
  }

  // ---------- The code, in place ----------

  /** validate_checksum on an IP frame: 0 if the header checksum is right, with the frame as it was;
      otherwise 1, and the checksum field is left zeroed. */
  method ValidateChecksum(order: HostOrder, packet: array<Byte>) returns (r: int)
    requires packet.Length >= MIN_FRAME
    modifies packet
    ensures r == if Validates(Header(old(packet[..]))) then 0 else 1
    ensures packet[..] == if r == 0 then old(packet[..]) else PutWord(old(packet[..]), SUM_WORD, 0)
  {
    hide Cksum, Store, Load, Htons;
    ghost var was := packet[..];
    var saved := Load(order, packet[24], packet[25]);
    packet[24], packet[25] := 0, 0;
    assert packet[..] == PutWord(was, SUM_WORD, 0);
    var sum := ComputeCksum(order, packet, ETHERNET, 20);
    assert packet[14..34] == Header(packet[..]);
    HeaderWord(was, SUM, 0);
    LoadedFromNetworkOrder(order, was[24], was[25]);
    HtonsIsInvolution(order, Cksum(Header(packet[..])));
    HtonsIsInvolution(order, WordAt(was, SUM_WORD));
    if sum != saved {
      return 1;
    }
    var (first, second) := Store(order, saved);
    StoreInvertsLoad(order, was[24], was[25]);
    packet[24], packet[25] := first, second;
    return 0;
  }

  /** The rewriting step of packet_to_other_dest: hosts, time to live, checksum. */
  method RewriteForHop(order: HostOrder, packet: array<Byte>, source: Mac, dest: Mac)
    requires packet.Length >= MIN_FRAME && packet[TTL] > 0
    modifies packet
    ensures packet[..] == Rewritten(old(packet[..]), source, dest)
  {
    hide Cksum, Store, Htons;
    ghost var was := packet[..];
    CopyInto(packet, 6, source);
    CopyInto(packet, 0, dest);
    assert packet[..] == dest + source + was[12..];
    packet[TTL] := packet[TTL] - 1;
    ghost var aged := packet[..];
    assert aged == (dest + source + was[12..])[TTL := was[TTL] - 1];
    packet[24], packet[25] := 0, 0;
    ghost var zeroed := packet[..];
    assert zeroed == PutWord(aged, SUM_WORD, 0);
    var sum := ComputeCksum(order, packet, ETHERNET, 20);
    assert packet[14..34] == Header(zeroed);
    var (first, second) := Store(order, sum);
    StoredInNetworkOrder(order, Cksum(Header(zeroed)));
    packet[24], packet[25] := first, second;
    assert packet[..] == PutWord(zeroed, SUM_WORD, Cksum(Header(zeroed)));
  }

  /** memcpy of a hardware address. */
  method CopyInto(packet: array<Byte>, at: nat, mac: Mac)
    requires at + 6 <= packet.Length
    modifies packet
    ensures packet[..] == old(packet[..at]) + mac + old(packet[at + 6..])
  {
    forall i | 0 <= i < 6 {
      packet[at + i] := mac[i];
    }
  }

  lemma HeaderWord(b: seq<Byte>, i: nat, word: Word16)
    requires IsFrame(b) && i < 10
    ensures Header(PutWord(b, i + 7, word)) == PutWord(Header(b), i, word)
    ensures WordAt(b, i + 7) == WordAt(Header(b), i)
  {
  }

  /** The destination is the last field of the header, its four bytes most significant first. */
  lemma DestinationBytes(b: seq<Byte>)
    requires IsFrame(b)
    ensures Destination(b)
         == 0x100_0000 * (b[30] as int) + 0x1_0000 * (b[31] as int) + 0x100 * (b[32] as int) + (b[33] as int)
  {
  }

  // ---------- What a forwarded frame looks like ----------

  /** The rewritten frame differs from the original only in the two hosts, the time to live and the
      header checksum. */
  lemma RewrittenChangesOnly(b: seq<Byte>, source: Mac, dest: Mac)
    requires IsFrame(b) && b[TTL] > 0
    ensures var w := Rewritten(b, source, dest);
            && w[..6] == dest && w[6..12] == source
            && w[TTL] == b[TTL] - 1
            && forall i :: 12 <= i < |b| && i !in {TTL, 24, 25} ==> w[i] == b[i]
  {
    hide Cksum;
  }

  /** In terms of the header alone: one word changed, then the checksum filled in. */
  lemma RewrittenHeader(b: seq<Byte>, source: Mac, dest: Mac)
    requires IsFrame(b) && b[TTL] > 0
    ensures var h := PutWord(Header(b), TTL_WORD, WordAt(Header(b), TTL_WORD) - 0x100);
            Header(Rewritten(b, source, dest)) == PutWord(h, SUM, Cksum(PutWord(h, SUM, 0)))
  {
    hide Cksum, PutWord;
    var aged := Aged(b, source, dest);
    var h := PutWord(Header(b), TTL_WORD, WordAt(Header(b), TTL_WORD) - 0x100);
    AgedHeader(b, source, dest);
    var zeroed := PutWord(aged, SUM_WORD, 0);
    HeaderWord(aged, SUM, 0);
    HeaderWord(zeroed, SUM, Cksum(Header(zeroed)));
    PutWordTwice(h, SUM, 0, Cksum(Header(zeroed)));
  }

  lemma AgedHeader(b: seq<Byte>, source: Mac, dest: Mac)
    requires IsFrame(b) && b[TTL] > 0
    ensures Header(Aged(b, source, dest)) == PutWord(Header(b), TTL_WORD, WordAt(Header(b), TTL_WORD) - 0x100)
  {
    hide Word, Aged, PutWord;
    var h, aged := Header(b), Aged(b, source, dest);
    assert h[2 * TTL_WORD] == b[TTL] && h[2 * TTL_WORD + 1] == b[TTL + 1];
    AgedByte(b, source, dest);
    PutHigherByte(h, TTL_WORD);
    assert aged[ETHERNET..MIN_FRAME] == h[2 * TTL_WORD := b[TTL] - 1];
  }

  lemma AgedByte(b: seq<Byte>, source: Mac, dest: Mac)
    requires IsFrame(b) && b[TTL] > 0
    ensures forall i :: ETHERNET <= i < MIN_FRAME ==> Aged(b, source, dest)[i] == if i == TTL then b[TTL] - 1 else b[i]
  {
  }

  /** Taking one from the first byte of a word. */
  lemma PutHigherByte(data: seq<Byte>, i: nat)
    requires 2 * i + 1 < |data| && data[2 * i] > 0
    ensures WordAt(data, i) >= 0x100
    ensures PutWord(data, i, WordAt(data, i) - 0x100) == data[2 * i := data[2 * i] - 1]
  {
    BytesOfWord(data[2 * i] - 1, data[2 * i + 1]);
  }

  lemma PutWordTwice(data: seq<Byte>, i: nat, first: Word16, second: Word16)
    requires 2 * i + 1 < |data|
    ensures PutWord(PutWord(data, i, first), i, second) == PutWord(data, i, second)
  {
  }

  /** Every rewritten frame carries a header checksum that the code and the RFC 1071 receiver accept,
      and that RFC 1624 would have computed from a valid original. */
  lemma RewrittenIsValid(b: seq<Byte>, source: Mac, dest: Mac)
    requires IsFrame(b) && b[TTL] > 0
    ensures var w := Header(Rewritten(b, source, dest));
            && Validates(w) && ReceiverAccepts(w)
            && (ReceiverAccepts(Header(b)) ==>
                  var before := WordAt(Header(b), TTL_WORD);
                  var update := Rfc1624(WordAt(Header(b), SUM), before, before - 0x100);
                  WordAt(w, SUM) == if update == 0 then 0xffff else update)
  {
    hide Cksum, Rfc1624, ReceiverAccepts, Rewritten;
    var before := WordAt(Header(b), TTL_WORD);
    var h := PutWord(Header(b), TTL_WORD, before - 0x100);
    RewrittenHeader(b, source, dest);
    FilledHeaderValidates(h);
    ValidatesExactly(Header(Rewritten(b, source, dest)));
    if ReceiverAccepts(Header(b)) {
      RecomputedIsRfc1624(Header(b), TTL_WORD, before - 0x100);
    }
  }
}
