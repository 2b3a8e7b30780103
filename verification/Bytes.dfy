/** Bytes, 16-bit words and the byte order of the host. */
module Bytes {

  type Byte = x: int | 0 <= x < 0x100
  type Word16 = x: int | 0 <= x < 0x1_0000

  /** A 16-bit word read most significant byte first: network byte order. */
  function Word(high: Byte, low: Byte): Word16 {
    0x100 * high + low
  }

  lemma BytesOfWord(high: Byte, low: Byte)
    ensures Word(high, low) / 0x100 == high && Word(high, low) % 0x100 == low
  {
  }

  /** Word i of data replaced. */
  function PutWord(data: seq<Byte>, i: nat, word: Word16): (r: seq<Byte>)
    requires 2 * i + 1 < |data|
    ensures |r| == |data|
  {
    data[2 * i := word / 0x100][2 * i + 1 := word % 0x100]
  }

  function WordAt(data: seq<Byte>, i: nat): Word16
    requires 2 * i + 1 < |data|
  {
    Word(data[2 * i], data[2 * i + 1])
  }

  datatype HostOrder = LittleEndian | BigEndian

  /** The two bytes of a host word as they lie in memory. */
  function Store(order: HostOrder, x: Word16): (b: (Byte, Byte))
  {
    match order
    case LittleEndian => (x % 0x100, x / 0x100)
    case BigEndian => (x / 0x100, x % 0x100)
  }

  function Load(order: HostOrder, first: Byte, second: Byte): Word16 {
    match order
    case LittleEndian => Word(second, first)
    case BigEndian => Word(first, second)
  }

  function Htons(order: HostOrder, x: Word16): (r: Word16)
  {
    match order
    case LittleEndian => 0x100 * (x % 0x100) + x / 0x100
    case BigEndian => x
  }

  /** On either host, storing a converted word lays it out in network byte order. */
  lemma StoredInNetworkOrder(order: HostOrder, x: Word16)
    ensures var (b0, b1) := Store(order, Htons(order, x)); Word(b0, b1) == x
  {
  }

  /** Loading two bytes gives the converted form of the word they spell. */
  lemma LoadedFromNetworkOrder(order: HostOrder, high: Byte, low: Byte)
    ensures Load(order, high, low) == Htons(order, Word(high, low))
  {
  }

  lemma StoreInvertsLoad(order: HostOrder, first: Byte, second: Byte)
    ensures Store(order, Load(order, first, second)) == (first, second)
  {
  }

  /** The first byte in memory is the low one on a little-endian host and the high one on a big-endian host. */
  lemma FirstByteInMemory(low: Byte, high: Byte)
    ensures Store(LittleEndian, 0x100 * high + low).0 == low && Store(BigEndian, 0x100 * high + low).0 == high
  {
  }

  lemma HtonsIsInvolution(order: HostOrder, x: Word16)
    ensures Htons(order, Htons(order, x)) == x
  {
  }

  lemma HtonsFixesExtremes(order: HostOrder)
    ensures Htons(order, 0) == 0 && Htons(order, 0xffff) == 0xffff
  {
  }
}
