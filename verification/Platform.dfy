// The memory map of the Blue Pill (64 KB flash in 1 KB pages, 20 KB RAM) and byte-level helpers.

module Platform {

  const FLASH_BASE := 0x0800_0000
  const FLASH_SIZE := 0x1_0000
  const FLASH_END := FLASH_BASE + FLASH_SIZE
  const FLASH_PAGE_SIZE := 1024
  const RAM_BASE := 0x2000_0000
  const RAM_SIZE := 0x5000
  const RAM_END := RAM_BASE + RAM_SIZE

  type Byte = b: int | 0 <= b < 0x100

  type Word = w: int | 0 <= w < 0x1_0000_0000

  /** The contents of the whole flash, from FLASH_BASE up. */
  type Image = f: seq<Byte> | |f| == FLASH_SIZE witness seq(FLASH_SIZE, _ => 0)

  type Ram = r: seq<Byte> | |r| == RAM_SIZE witness seq(RAM_SIZE, _ => 0)

  type Page = p: seq<Byte> | |p| == FLASH_PAGE_SIZE witness seq(FLASH_PAGE_SIZE, _ => 0)

  /** What an erased flash cell reads as. */
  const ERASED: Byte := 0xFF

  /** What a read outside flash and RAM yields; real hardware faults instead. */
  const OPEN_BUS: Byte := 0

  /** C's 32-bit unsigned wrap-around. */
  function Wrap(x: int): Word {
    x % 0x1_0000_0000
  }

  /** FLASH_ADDRESS: start of the flash page that contains the address. */
  function PageAddress(a: int): int {
    a / FLASH_PAGE_SIZE * FLASH_PAGE_SIZE
  }

  predicate InFlash(a: int) {
    FLASH_BASE <= a < FLASH_END
  }

  predicate InRam(a: int) {
    RAM_BASE <= a < RAM_END
  }

  /** The byte a load from absolute address `a` yields. */
  function Peek(flash: Image, ram: Ram, a: int): Byte {
    if InFlash(a) then flash[a - FLASH_BASE]
    else if InRam(a) then ram[a - RAM_BASE]
    else OPEN_BUS
  }

  /** Little-endian 32-bit word at index `at`. */
  function WordAt(s: seq<Byte>, at: nat): Word
    requires at + 4 <= |s|
  {
    s[at] as int + 0x100 * s[at + 1] as int + 0x1_0000 * s[at + 2] as int + 0x100_0000 * s[at + 3] as int
  }

  /** The four little-endian bytes of a word. */
  function WordBytes(w: Word): (s: seq<Byte>)
    ensures |s| == 4
  {
    var w1 := w / 0x100;
    var w2 := w1 / 0x100;
    [w % 0x100, w1 % 0x100, w2 % 0x100, w2 / 0x100]
  }

  lemma WordRoundTrip(w: Word)
    ensures WordAt(WordBytes(w), 0) == w
  {
  }

  /** A word is the one its four bytes spell. */
  lemma WordIs(s: seq<Byte>, at: nat, bytes: seq<Byte>)
    requires at + 4 <= |s| && |bytes| == 4
    ensures s[at..at + 4] == bytes <==> WordAt(s, at) == WordAt(bytes, 0)
  {
    var w := s[at..at + 4];
    assert WordAt(w, 0) == WordAt(s, at);
    if WordAt(w, 0) == WordAt(bytes, 0) {
      WordInjective(w, bytes);
    }
  }

  lemma WordInjective(a: seq<Byte>, b: seq<Byte>)
    requires |a| == |b| == 4 && WordAt(a, 0) == WordAt(b, 0)
    ensures a == b
  {
    var a2, b2 := a[2] as int + 0x100 * a[3] as int, b[2] as int + 0x100 * b[3] as int;
    LowByte(a[0], a[1] as int + 0x100 * a2, b[0], b[1] as int + 0x100 * b2);
    LowByte(a[1], a2, b[1], b2);
    LowByte(a[2], a[3], b[2], b[3]);
  }

  lemma LowByte(x: Byte, more: int, y: Byte, rest: int)
    requires x + 0x100 * more == y + 0x100 * rest
    ensures x == y && more == rest
  {
  }

  /** `data` written over `s` from index `at`. */
  function Overlay(s: seq<Byte>, at: nat, data: seq<Byte>): (r: seq<Byte>)
    requires at + |data| <= |s|
    ensures |r| == |s|
    ensures forall i :: 0 <= i < |s| ==> r[i] == if at <= i < at + |data| then data[i - at] else s[i]
  {
    s[..at] + data + s[at + |data|..]
  }

  lemma OverlayTwice(s: seq<Byte>, at: nat, a: seq<Byte>, b: seq<Byte>)
    requires at + |a| + |b| <= |s|
    ensures Overlay(Overlay(s, at, a), at + |a|, b) == Overlay(s, at, a + b)
  {
  }

  lemma OverlayInside(s: seq<Byte>, at: nat, a: seq<Byte>, offset: nat, b: seq<Byte>)
    requires at + |a| <= |s| && offset + |b| <= |a|
    ensures Overlay(s, at, Overlay(a, offset, b)) == Overlay(Overlay(s, at, a), at + offset, b)
  {
  }

  lemma OverlaySelf(s: seq<Byte>, at: nat, len: nat)
    requires at + len <= |s|
    ensures Overlay(s, at, s[at..at + len]) == s
  {
  }

  lemma SliceOfSlice(s: seq<Byte>, at: nat, len: nat, from: nat, n: nat)
    requires at + len <= |s| && from + n <= len
    ensures s[at..at + len][from..from + n] == s[at + from..at + from + n]
  {
    var left, right := s[at..at + len][from..from + n], s[at + from..at + from + n];
    forall i | 0 <= i < n
      ensures left[i] == right[i]
    {
      assert s[at..at + len][from + i] == s[at + from + i];
    }
  }
}
