// uf2.h: the 512-byte UF2 block as it travels in a disk sector.

module Uf2Format {
  import opened Platform

  const UF2_MAGIC_START0 := 0x0A32_4655
  const UF2_MAGIC_START1 := 0x9E5D_5157
  const UF2_MAGIC_END := 0x0AB1_6F30
  const UF2_FAMILY := 0x5ee2_1072
  const SECTOR_SIZE := 512
  const DATA_SIZE := 476

  type Sector = s: seq<Byte> | |s| == SECTOR_SIZE witness seq(SECTOR_SIZE, _ => 0)

  datatype Uf2Block = Uf2Block(magicStart0: Word, magicStart1: Word, flags: Word, targetAddr: Word, payloadSize: Word,
                               blockNo: Word, numBlocks: Word, familyID: Word, data: seq<Byte>, magicEnd: Word)

  /** The block a sector holds when read through the packed C structure. */
  function Decode(s: Sector): (b: Uf2Block)
    ensures |b.data| == DATA_SIZE
  {
    Uf2Block(WordAt(s, 0), WordAt(s, 4), WordAt(s, 8), WordAt(s, 12), WordAt(s, 16),
             WordAt(s, 20), WordAt(s, 24), WordAt(s, 28), s[32..32 + DATA_SIZE], WordAt(s, 508))
  }

  /** The sector a block is laid out in. */
  function Encode(b: Uf2Block): Sector
    requires |b.data| == DATA_SIZE
  {
    WordBytes(b.magicStart0) + WordBytes(b.magicStart1) + WordBytes(b.flags) + WordBytes(b.targetAddr) +
    WordBytes(b.payloadSize) + WordBytes(b.blockNo) + WordBytes(b.numBlocks) + WordBytes(b.familyID) +
    b.data + WordBytes(b.magicEnd)
  }

  lemma FieldAt(s: seq<Byte>, at: nat, w: Word)
    requires at + 4 <= |s| && s[at..at + 4] == WordBytes(w)
    ensures WordAt(s, at) == w
  {
    WordRoundTrip(w);
    assert s[at] == s[at..at + 4][0] && s[at + 1] == s[at..at + 4][1] && s[at + 2] == s[at..at + 4][2]
    && s[at + 3] == s[at..at + 4][3];
  }

  /** Every field of every block survives the trip through a sector. */
  lemma DecodeEncode(b: Uf2Block)
    requires |b.data| == DATA_SIZE
    ensures Decode(Encode(b)) == b
  {
    hide WordBytes, WordAt;
    var s := Encode(b);
    FieldAt(s, 0, b.magicStart0);
    FieldAt(s, 4, b.magicStart1);
    FieldAt(s, 8, b.flags);
    FieldAt(s, 12, b.targetAddr);
    FieldAt(s, 16, b.payloadSize);
    FieldAt(s, 20, b.blockNo);
    FieldAt(s, 24, b.numBlocks);
    FieldAt(s, 28, b.familyID);
    FieldAt(s, 508, b.magicEnd);
    assert s[32..32 + DATA_SIZE] == b.data;
  }

  /** is_uf2_block. */
  predicate IsUf2(b: Uf2Block) {
    b.magicStart0 == UF2_MAGIC_START0 && b.magicStart1 == UF2_MAGIC_START1 && b.magicEnd == UF2_MAGIC_END
  }

  /** UF2_IS_MY_FAMILY: no family given (flag 0x2000 clear), or ours. */
  predicate IsMyFamily(b: Uf2Block) {
    b.flags / 0x2000 % 2 == 0 || b.familyID == UF2_FAMILY
  }

  /** A sector that is no UF2 block for this chip, byte for byte: one of the magic words is missing ("UF2\n" is the
      first), or flag 0x2000 says that a family is given and it is another one. */
  predicate Foreign(s: Sector) {
    || s[0..4] != [0x55, 0x46, 0x32, 0x0A] || s[4..8] != [0x57, 0x51, 0x5D, 0x9E]
    || s[508..512] != [0x30, 0x6F, 0xB1, 0x0A] || (s[9] / 0x20 % 2 == 1 && s[28..32] != [0x72, 0x10, 0xE2, 0x5E])
  }

  /** The words and flags tested are those bytes. */
  lemma ForeignIff(s: Sector)
    ensures Foreign(s) <==> !(IsUf2(Decode(s)) && IsMyFamily(Decode(s)))
  {
    WordIs(s, 0, [0x55, 0x46, 0x32, 0x0A]);
    WordIs(s, 4, [0x57, 0x51, 0x5D, 0x9E]);
    WordIs(s, 508, [0x30, 0x6F, 0xB1, 0x0A]);
    WordIs(s, 28, [0x72, 0x10, 0xE2, 0x5E]);
    FlagBits(s, 8);
  }

  /** Bits 0 and 13 of a little-endian word. */
  lemma FlagBits(s: seq<Byte>, at: nat)
    requires at + 4 <= |s|
    ensures WordAt(s, at) / 0x2000 % 2 == s[at + 1] / 0x20 % 2 && WordAt(s, at) % 2 == s[at] % 2
  {
    var b1: int, high: int := s[at + 1], s[at + 2] as int + 0x100 * s[at + 3] as int;
    var q, low := b1 / 0x20, s[at] as int + 0x100 * (b1 % 0x20);
    assert b1 == 0x20 * q + b1 % 0x20;
    assert WordAt(s, at) == low + 0x2000 * (q + 8 * high);
    FlagBlock(q + 8 * high, low);
    EvenPart(q, 4 * high);
    EvenPart(s[at], 0x80 * (b1 + 0x100 * high));
  }

  lemma FlagBlock(q: nat, r: nat)
    requires r < 0x2000
    ensures (r + 0x2000 * q) / 0x2000 == q
  {
  }

  lemma EvenPart(x: nat, k: nat)
    ensures (x + 2 * k) % 2 == x % 2
  {
  }

  /** The "comment" flag 0x1. */
  predicate NotForFlash(b: Uf2Block) {
    b.flags % 2 == 1
  }
}
