// ghostfat.c: sectors written to the virtual disk, in any order, and the bitmap that tells when a file is complete.

module Uf2Writer {
  import opened Platform
  import opened FlashHardware
  import opened PageCache
  import opened Uf2Format
  import opened VirtualDisk

  const MAX_BLOCKS := FLASH_SIZE / 256 + 100
  const MASK_BYTES := MAX_BLOCKS / 8 + 1
  const POISON := 0xffff_ffff
  const SHORT_DELAY := 30
  const LONG_DELAY := 500

  type Mask = m: seq<bv8> | |m| == MASK_BYTES witness seq(MASK_BYTES, _ => 0)

  datatype WriteState = WriteState(numBlocks: Word, numWritten: nat, mask: Mask)

  const INITIAL_STATE := WriteState(0, 0, seq(MASK_BYTES, _ => 0))

  /** 1 << j in a byte. */
  function Bit(j: nat): bv8
    requires j < 8
  {
    [1, 2, 4, 8, 16, 32, 64, 128][j]
  }

  predicate IsSet(mask: Mask, i: nat)
    requires i < MAX_BLOCKS
  {
    mask[i / 8] & Bit(i % 8) != 0
  }

  function SetBit(mask: Mask, i: nat): Mask
    requires i < MAX_BLOCKS
  {
    mask[i / 8 := mask[i / 8] | Bit(i % 8)]
  }

  /** Reconciling the file length a block announces with the one remembered. */
  function AgreedBlocks(st: WriteState, b: Uf2Block): Word {
    if st.numBlocks != b.numBlocks then
      if b.numBlocks >= MAX_BLOCKS || st.numBlocks != 0 then POISON else b.numBlocks
    else st.numBlocks
  }

  /** The counting part of write_block_core: state afterwards, and whether the short reset timer is due. */
  function Count(st: WriteState, b: Uf2Block): (WriteState, bool) {
    if b.numBlocks == 0 then (st, false)
    else
      var st1 := st.(numBlocks := AgreedBlocks(st, b));
      if b.blockNo < MAX_BLOCKS then
        var st2 := if IsSet(st1.mask, b.blockNo) then st1
                   else st1.(mask := SetBit(st1.mask, b.blockNo), numWritten := st1.numWritten + 1);
        (st2, st2.numWritten >= st2.numBlocks)
      else (st1, false)
  }

  // ---------- the bitmap ----------

  function Seen(mask: Mask): set<nat> {
    set i: nat | i < MAX_BLOCKS && IsSet(mask, i)
  }

  lemma OrBit(m: bv8, j: nat, k: nat)
    requires j < 8 && k < 8
    ensures (m | Bit(j)) & Bit(k) != 0 <==> j == k || m & Bit(k) != 0
  {
    var x, y := Bit(j), Bit(k);
    assert (m | x) & y == (m & y) | (x & y);
    assert j == k ==> x & y != 0;
    assert j != k ==> x & y == 0;
  }

  lemma SetBitAt(mask: Mask, b: nat, i: nat)
    requires b < MAX_BLOCKS && i < MAX_BLOCKS
    ensures IsSet(SetBit(mask, b), i) <==> i == b || IsSet(mask, i)
  {
    hide Bit;
    if i / 8 == b / 8 {
      OrBit(mask[b / 8], b % 8, i % 8);
    }
  }

  lemma SetBitAddsOne(mask: Mask, b: nat)
    requires b < MAX_BLOCKS
    ensures Seen(SetBit(mask, b)) == Seen(mask) + {b}
  {
    hide SetBit, IsSet;
    forall i: nat | i < MAX_BLOCKS
      ensures IsSet(SetBit(mask, b), i) <==> i == b || IsSet(mask, i)
    {
      SetBitAt(mask, b, i);
    }
  }

  lemma NothingSeenAtFirst()
    ensures Seen(INITIAL_STATE.mask) == {}
  {
    forall i: nat | i < MAX_BLOCKS
      ensures !IsSet(INITIAL_STATE.mask, i)
    {
      assert (0 as bv8) & Bit(i % 8) == 0;
    }
  }

  /** numWritten is the number of bits set. */
  predicate Counted(st: WriteState) {
    st.numWritten == |Seen(st.mask)|
  }

  /** Every block keeps the counter equal to the number of set bits, and sets exactly its own bit. */
  lemma CountKeepsCounter(st: WriteState, b: Uf2Block)
    requires Counted(st)
    ensures Counted(Count(st, b).0)
    ensures Seen(Count(st, b).0.mask) ==
      if b.numBlocks != 0 && b.blockNo < MAX_BLOCKS then Seen(st.mask) + {b.blockNo} else Seen(st.mask)
  {
    hide Seen, SetBit, IsSet;
    if b.blockNo < MAX_BLOCKS {
      SetBitAddsOne(st.mask, b.blockNo);
      SeenIsSet(st.mask, b.blockNo);
    }
  }

  lemma SeenIsSet(mask: Mask, i: nat)
    requires i < MAX_BLOCKS
    ensures i in Seen(mask) <==> IsSet(mask, i)
  {
  }

  /** The numbers below n. */
  function Range(n: nat): (r: set<nat>)
    ensures |r| == n && forall i: nat :: i in r <==> i < n
  {
    if n == 0 then {} else Range(n - 1) + {n - 1}
  }

  lemma SubsetSize(a: set<nat>, b: set<nat>)
    requires a <= b
    ensures |a| <= |b| && (|a| >= |b| ==> a == b)
  {
    assert b == a + (b - a);
    assert |b| == |a| + |b - a|;
    if b - a == {} {
      assert a == b;
    }
  }

  lemma SeenBounded(mask: Mask)
    ensures |Seen(mask)| <= MAX_BLOCKS
  {
    SubsetSize(Seen(mask), Range(MAX_BLOCKS));
  }

  // ---------- whole streams ----------

  /** State after a stream of blocks, and whether the last one armed the short timer. */
  function CountAll(st: WriteState, blocks: seq<Uf2Block>): (WriteState, bool) {
    if blocks == [] then (st, false)
    else Count(CountAll(st, blocks[..|blocks| - 1]).0, blocks[|blocks| - 1])
  }

  /** Every block announces the same length, and numbers itself below it. */
  predicate OneFile(blocks: seq<Uf2Block>, n: nat) {
    0 < n < MAX_BLOCKS && forall b :: b in blocks ==> b.numBlocks == n && b.blockNo < n
  }

  function Numbers(blocks: seq<Uf2Block>): set<nat> {
    set b | b in blocks :: b.blockNo as nat
  }

  lemma NumbersSplit(blocks: seq<Uf2Block>)
    requires blocks != []
    ensures Numbers(blocks) == Numbers(blocks[..|blocks| - 1]) + {blocks[|blocks| - 1].blockNo as nat}
  {
    assert blocks == blocks[..|blocks| - 1] + [blocks[|blocks| - 1]];
  }

  lemma {:induction false} StreamState(blocks: seq<Uf2Block>, n: nat)
    requires OneFile(blocks, n)
    ensures
      var st := CountAll(INITIAL_STATE, blocks).0;
      Counted(st) && Seen(st.mask) == Numbers(blocks) && (blocks != [] ==> st.numBlocks == n)
      && (blocks == [] ==> st.numBlocks == 0)
    decreases |blocks|
  {
    hide Seen, SetBit, IsSet;
    if blocks == [] {
      NothingSeenAtFirst();
    } else {
      StreamState(blocks[..|blocks| - 1], n);
      CountKeepsCounter(CountAll(INITIAL_STATE, blocks[..|blocks| - 1]).0, blocks[|blocks| - 1]);
      NumbersSplit(blocks);
    }
  }

  /** Completion does not depend on order or repetition: after any non-empty stream of one file's blocks, the last block
      arms the short timer exactly when every block of the file has been seen. */
  lemma CompleteIffAllSeen(blocks: seq<Uf2Block>, n: nat)
    requires OneFile(blocks, n) && blocks != []
    ensures CountAll(INITIAL_STATE, blocks).1 <==> forall i: nat :: i < n ==> i in Numbers(blocks)
  {
    hide Seen, SetBit, IsSet;
    StreamState(blocks, n);
    LastCompletes(blocks, n);
    SubsetSize(Numbers(blocks), Range(n));
    if forall i: nat :: i < n ==> i in Numbers(blocks) {
      assert Numbers(blocks) == Range(n);
    }
  }

  lemma LastCompletes(blocks: seq<Uf2Block>, n: nat)
    requires OneFile(blocks, n) && blocks != []
    ensures var (st, complete) := CountAll(INITIAL_STATE, blocks); complete == (st.numWritten >= st.numBlocks)
  {
    hide SetBit, IsSet;
  }

  /** A block that disagrees about the length, or announces one beyond the bitmap, poisons the state. */
  lemma InconsistentPoisons(st: WriteState, b: Uf2Block)
    requires b.numBlocks != 0 && b.numBlocks != st.numBlocks && (st.numBlocks != 0 || b.numBlocks >= MAX_BLOCKS)
    ensures Count(st, b).0.numBlocks == POISON
  {
    hide SetBit, IsSet;
  }

  /** Once poisoned, always poisoned: no stream of blocks ever completes again. */
  lemma {:induction false} PoisonIsForever(st: WriteState, blocks: seq<Uf2Block>)
    requires Counted(st) && st.numBlocks == POISON
    ensures
      var (st', complete) := CountAll(st, blocks);
      !complete && st'.numBlocks == POISON && Counted(st')
    decreases |blocks|
  {
    hide Seen, SetBit, IsSet;
    if blocks != [] {
      PoisonIsForever(st, blocks[..|blocks| - 1]);
      var p := CountAll(st, blocks[..|blocks| - 1]).0;
      CountKeepsCounter(p, blocks[|blocks| - 1]);
      SeenBounded(Count(p, blocks[|blocks| - 1]).0.mask);
    }
  }

  // ---------- write_block ----------

  datatype Disk = Disk(cache: Cache, state: WriteState)

  /** Blocks that are only counted: comments, oversized, misaligned, or outside the application's part of flash. */
  predicate Skipped(app: int, b: Uf2Block) {
    || NotForFlash(b) || b.payloadSize > 256 || b.targetAddr % 0x100 != 0
    || b.targetAddr < app || Wrap(b.targetAddr + b.payloadSize) > FLASH_END
  }

  /** Not a 256-byte block ending at the very top of the address space, whose end the checks would wrap to 0. */
  predicate NoWrap(b: Uf2Block) {
    b.targetAddr + b.payloadSize != 0x1_0000_0000
  }

  /** What the checks of write_block_core and flash_write let through lies in flash exactly if its end does not wrap. */
  lemma AcceptedIff(app: int, b: Uf2Block)
    requires FLASH_BASE <= app && 0 < b.payloadSize && !Skipped(app, b)
    requires ValidWrite(b.targetAddr, Packet(b.data), b.payloadSize)
    ensures InFlash(b.targetAddr) && b.targetAddr + b.payloadSize <= FLASH_END <==> NoWrap(b)
  {
    if b.targetAddr + b.payloadSize < 0x1_0000_0000 {
      assert Wrap(b.targetAddr + b.payloadSize) == b.targetAddr + b.payloadSize;
    }
  }

  /** A block for the last 256 bytes of the address space. */
  function StrayBlock(): (b: Uf2Block)
    ensures IsUf2(b) && IsMyFamily(b) && |b.data| == DATA_SIZE
  {
    Uf2Block(UF2_MAGIC_START0, UF2_MAGIC_START1, 0, 0xFFFF_FF00, 256, 0, 1, 0, seq(DATA_SIZE, _ => 0), UF2_MAGIC_END)
  }

  /** It passes every check, for any application in flash, and the page it would be cached in is far outside flash. */
  lemma StrayBlockAccepted(app: int)
    requires InFlash(app)
    ensures
      var b := StrayBlock();
      && !Skipped(app, b) && ValidWrite(b.targetAddr, Packet(b.data), b.payloadSize) && !NoWrap(b)
      && !PageInFlash(PageAddress(b.targetAddr))
  {
  }

  function FlashPart(app: int, c: Cache, b: Uf2Block): (r: Cache)
    requires Inv(c) && (Skipped(app, b) || NoWrap(b)) && |b.data| == DATA_SIZE
    ensures Inv(r)
  {
    if Skipped(app, b) then c
    else
      BlockInPage(b);
      FlashWrite(c, b.targetAddr, Packet(b.data), b.payloadSize)
  }

  lemma BlockInPage(b: Uf2Block)
    requires NoWrap(b) && b.payloadSize <= 256 && b.targetAddr % 0x100 == 0
    ensures OneOrAligned(b.targetAddr, b.payloadSize) && b.targetAddr + b.payloadSize < 0x1_0000_0000
  {
  }

  /** Not a block that is to be written with its end at the very top of the address space. */
  predicate InModel(app: int, b: Uf2Block) {
    IsUf2(b) && IsMyFamily(b) ==> Skipped(app, b) || NoWrap(b)
  }

  /** write_block: `app` is USER_FLASH_START, the start of the application. */
  function WriteBlockCore(app: int, d: Disk, sector: Sector): (r: Disk)
    requires Inv(d.cache) && InModel(app, Decode(sector))
    ensures Inv(r.cache)
  {
    var b := Decode(sector);
    if !IsUf2(b) || !IsMyFamily(b) then d
    else
      var c := FlashPart(app, d.cache, b);
      var (st, complete) := Count(d.state, b);
      Disk(StartTimer(c, if complete then SHORT_DELAY else LONG_DELAY), st)
  }

  // ---------- what one sector does ----------

  /** A sector that is no UF2 block for this chip, such as one of a table or directory the host writes, changes nothing
      at all: it is not written, not counted, and does not touch the reset timer. */
  lemma ForeignIgnored(app: int, d: Disk, s: Sector)
    requires Inv(d.cache) && Foreign(s)
    ensures InModel(app, Decode(s)) && WriteBlockCore(app, d, s) == d
  {
    ForeignIff(s);
  }

  /** The checks before a block is written, on the sector's words: flash is wanted (flag 1 clear), at most 256 bytes, on
      a 256-byte boundary, in the application's part of flash and ending before the end of flash. */
  predicate Stored(app: int, s: Sector) {
    && s[8] % 2 == 0 && WordAt(s, 16) <= 256 && WordAt(s, 12) % 0x100 == 0
    && app <= WordAt(s, 12) && WordAt(s, 12) + WordAt(s, 16) < 0x0801_0000
  }

  /** Every other sector is handled: its payload is stored if it passes those checks, and dropped otherwise. */
  lemma SectorWritten(app: int, d: Disk, s: Sector)
    requires FLASH_BASE <= app && Inv(d.cache) && Healthy(d.cache.chip) && !Foreign(s) && InModel(app, Decode(s))
    ensures
      var r := WriteBlockCore(app, d, s);
      && Healthy(r.cache.chip)
      && View(r.cache) == if Stored(app, s)
                          then Overlay(View(d.cache), WordAt(s, 12) - FLASH_BASE, s[32..32 + WordAt(s, 16)])
                          else View(d.cache)
  {
    hide View, WriteLoop, Overlay, Count, WordAt, FlashPart, Foreign, IsUf2, IsMyFamily, Skipped;
    ForeignIff(s);
    PayloadWritten(app, d.cache, Decode(s));
    StoredIff(app, s);
    TimerView(FlashPart(app, d.cache, Decode(s)), SHORT_DELAY);
    TimerView(FlashPart(app, d.cache, Decode(s)), LONG_DELAY);
    assert Decode(s).data[..if Stored(app, s) then WordAt(s, 16) else 0] ==
      s[32..32 + if Stored(app, s) then WordAt(s, 16) else 0];
  }

  lemma TimerView(c: Cache, delay: nat)
    requires Inv(c)
    ensures View(StartTimer(c, delay)) == View(c)
  {
  }

  /** What the checks of write_block_core and of flash_write amount to. */
  lemma StoredIff(app: int, s: Sector)
    requires FLASH_BASE <= app && (Skipped(app, Decode(s)) || NoWrap(Decode(s)))
    ensures
      var b := Decode(s);
      Stored(app, s) <==> !Skipped(app, b) && ValidWrite(b.targetAddr, Packet(b.data), b.payloadSize)
  {
    hide WordAt;
    FlagBits(s, 8);
    var target: int, size: int := WordAt(s, 12), WordAt(s, 16);
    if size <= 256 && target % 0x100 == 0 && target + size != 0x1_0000_0000 {
      EndOfBlock(target, size);
    }
  }

  lemma EndOfBlock(target: Word, size: Word)
    requires target % 0x100 == 0 && size <= 256 && target + size != 0x1_0000_0000
    ensures Wrap(target + size) == target + size
  {
    assert target == 0x100 * (target / 0x100);
  }

  lemma PayloadWritten(app: int, c: Cache, b: Uf2Block)
    requires FLASH_BASE <= app && Inv(c) && Healthy(c.chip) && |b.data| == DATA_SIZE && (Skipped(app, b) || NoWrap(b))
    ensures
      var r := FlashPart(app, c, b);
      var stored := !Skipped(app, b) && ValidWrite(b.targetAddr, Packet(b.data), b.payloadSize);
      && Healthy(r.chip) && SameTimers(r, c)
      && (stored ==> b.payloadSize <= DATA_SIZE && InFlash(b.targetAddr)
                     && b.targetAddr + b.payloadSize <= FLASH_END
                     && View(r) == Overlay(View(c), b.targetAddr - FLASH_BASE, b.data[..b.payloadSize]))
      && (!stored ==> r == c)
  {
    hide View, WriteLoop, Overlay, ValidWrite;
    if !Skipped(app, b) && ValidWrite(b.targetAddr, Packet(b.data), b.payloadSize) {
      BlockInPage(b);
      AcceptedInside(b);
      if b.payloadSize > 0 {
        AcceptedInBounds(b.targetAddr, Packet(b.data), b.payloadSize);
        WriteLoopView(c, b.targetAddr, Packet(b.data), b.payloadSize);
        WriteLoopTimers(c, b.targetAddr, Packet(b.data), b.payloadSize);
      } else {
        OverlayNone(View(c), b.targetAddr - FLASH_BASE, []);
        assert b.data[..0] == [];
      }
    }
  }

  lemma AcceptedInside(b: Uf2Block)
    requires b.targetAddr + b.payloadSize < 0x1_0000_0000
    requires ValidWrite(b.targetAddr, Packet(b.data), b.payloadSize)
    ensures InFlash(b.targetAddr) && b.targetAddr + b.payloadSize < FLASH_END
  {
    assert Wrap(b.targetAddr + b.payloadSize) == b.targetAddr + b.payloadSize;
  }

  /** And every one is counted, stored or not: its number (bytes 20 to 23) is marked if it announces a length at all
      (bytes 24 to 27), and the reset is due in 30 ms if as many blocks have been marked as the file has, in 500 ms
      otherwise. */
  lemma SectorCounted(app: int, d: Disk, s: Sector)
    requires FLASH_BASE <= app && Inv(d.cache) && !Foreign(s) && InModel(app, Decode(s)) && Counted(d.state)
    ensures
      var r := WriteBlockCore(app, d, s);
      var number, length := WordAt(s, 20), WordAt(s, 24);
      var marked := length != 0 && number < 356;
      && Counted(r.state)
      && Seen(r.state.mask) == (if marked then Seen(d.state.mask) + {number as nat} else Seen(d.state.mask))
      && r.cache.ms == d.cache.ms && r.cache.restarted == d.cache.restarted
      && r.cache.resetTime == Wrap(d.cache.ms + if marked && r.state.numWritten >= r.state.numBlocks then 30 else 500)
      && r.state.numBlocks == (if length == 0 || length == d.state.numBlocks then d.state.numBlocks
                               else if length >= 356 || d.state.numBlocks != 0 then 0xffff_ffff else length)
  {
    hide View, WriteLoop, Seen, SetBit, IsSet, WordAt, Foreign, Skipped, FlashPart;
    ForeignIff(s);
    CountKeepsCounter(d.state, Decode(s));
    PayloadTimers(app, d.cache, Decode(s));
  }

  lemma PayloadTimers(app: int, c: Cache, b: Uf2Block)
    requires FLASH_BASE <= app && Inv(c) && |b.data| == DATA_SIZE && (Skipped(app, b) || NoWrap(b))
    ensures SameTimers(FlashPart(app, c, b), c)
  {
    hide WriteLoop, ValidWrite;
    if !Skipped(app, b) && b.payloadSize > 0 && ValidWrite(b.targetAddr, Packet(b.data), b.payloadSize) {
      BlockInPage(b);
      AcceptedInBounds(b.targetAddr, Packet(b.data), b.payloadSize);
      WriteLoopTimers(c, b.targetAddr, Packet(b.data), b.payloadSize);
    }
  }

  /** A block with the comment flag is counted, but never written: of cache and chip only the reset timer changes. */
  lemma CommentCounted(app: int, d: Disk, s: Sector)
    requires Inv(d.cache) && !Foreign(s) && s[8] % 2 == 1
    ensures InModel(app, Decode(s))
    ensures
      var r := WriteBlockCore(app, d, s);
      r.cache == d.cache.(resetTime := r.cache.resetTime) && r.state == Count(d.state, Decode(s)).0
  {
    hide Count, WordAt, Foreign, FlashWrite;
    FlagBits(s, 8);
    ForeignIff(s);
  }

  // ---------- CURRENT.UF2 fed back ----------

  const DISK_BLOCKS := FLASH_SIZE / UF2_PAYLOAD

  /** What happens to the device while a file arrives: a sector of CURRENT.UF2, a sector that is none of its blocks (the
      host's tables and directories, or another chip's file), or a timer tick. */
  datatype Event = Send(k: nat) | Stray(sector: Sector) | TickEvent

  predicate ProperEvent(e: Event) {
    (e.Send? ==> e.k < DISK_BLOCKS) && (e.Stray? ==> Foreign(e.sector))
  }

  lemma ImageFits(src: Image)
    ensures FitsFat(src)
  {
  }

  /** Sector of the k-th block of the file, as read from a device whose flash holds `src`. */
  function FileSector(src: Image, k: nat): (s: Sector)
    requires k < DISK_BLOCKS
    ensures FitsFat(src) && Decode(s) == FlashBlock(src, k)
  {
    hide FlashBlock, Encode, Decode;
    ImageFits(src);
    DecodeEncode(FlashBlock(src, k));
    ReadBlock(src, START_CLUSTERS + NUM_INFO - 1 + k)
  }

  lemma FileBlock(src: Image, k: nat)
    requires k < DISK_BLOCKS && FitsFat(src)
    ensures
      var b := FlashBlock(src, k);
      && b.flags == 0 && b.targetAddr == FLASH_BASE + UF2_PAYLOAD * k && b.payloadSize == UF2_PAYLOAD
      && b.blockNo == k && b.numBlocks == DISK_BLOCKS
      && b.data[..UF2_PAYLOAD] == src[UF2_PAYLOAD * k..UF2_PAYLOAD * (k + 1)]
      && IsUf2(b) && IsMyFamily(b) && !NotForFlash(b) && NoWrap(b)
  {
    assert BlockOffset(k) == UF2_PAYLOAD * k;
  }

  lemma FileWrite(app: int, c: Cache, src: Image, k: nat)
    requires FLASH_BASE <= app && k < DISK_BLOCKS && Inv(c) && FitsFat(src)
    ensures
      var b := FlashBlock(src, k);
      var dst := FLASH_BASE + UF2_PAYLOAD * k;
      NoWrap(b) && FlashPart(app, c, b) ==
        if Writable(app, k) then WriteLoop(c, dst, Packet(b.data), UF2_PAYLOAD) else c
  {
    hide FlashBlock, WriteLoop, Skipped, ValidWrite, InBounds, OneOrAligned;
    FileBlock(src, k);
    FileChecks(app, FlashBlock(src, k), k);
    if Writable(app, k) {
      PayloadBounds(src, k);
    }
  }

  /** What the checks make of a block of the file. */
  lemma FileChecks(app: int, b: Uf2Block, k: nat)
    requires FLASH_BASE <= app && k < DISK_BLOCKS && b.flags == 0 && b.payloadSize == UF2_PAYLOAD
    requires b.targetAddr == FLASH_BASE + UF2_PAYLOAD * k
    ensures Skipped(app, b) <==> FLASH_BASE + UF2_PAYLOAD * k < app
    ensures ValidWrite(b.targetAddr, Packet(b.data), UF2_PAYLOAD) <==> UF2_PAYLOAD * (k + 1) < FLASH_SIZE
  {
    var end := FLASH_BASE + UF2_PAYLOAD * (k + 1);
    assert end <= FLASH_END && Wrap(end) == end;
    assert (FLASH_BASE + UF2_PAYLOAD * k) % 0x100 == 0;
  }

  function Handle(app: int, d: Disk, src: Image, e: Event): (r: Disk)
    requires Inv(d.cache) && ProperEvent(e)
    ensures Inv(r.cache)
  {
    match e
    case Send(k) => WriteBlockCore(app, d, FileSector(src, k))
    case Stray(sector) =>
      ForeignIgnored(app, d, sector);
      WriteBlockCore(app, d, sector)
    case TickEvent => d.(cache := Tick(d.cache))
  }

  /** The device after the events, or at its restart if that comes first. */
  function Receive(app: int, d: Disk, src: Image, events: seq<Event>): (r: Disk)
    requires Inv(d.cache) && forall e :: e in events ==> ProperEvent(e)
    ensures Inv(r.cache)
    decreases |events|
  {
    if events == [] || d.cache.restarted then d else Receive(app, Handle(app, d, src, events[0]), src, events[1..])
  }

  /** How many events the device handled before it restarted. */
  function Handled(app: int, d: Disk, src: Image, events: seq<Event>): (n: nat)
    requires Inv(d.cache) && forall e :: e in events ==> ProperEvent(e)
    ensures n <= |events|
    decreases |events|
  {
    if events == [] || d.cache.restarted then 0 else 1 + Handled(app, Handle(app, d, src, events[0]), src, events[1..])
  }

  function Sent(events: seq<Event>): set<nat> {
    set e | e in events && e.Send? :: e.k
  }

  /** Whether block k of the file is written at all: it belongs to the application and is not the last block
      of flash. */
  predicate Writable(app: int, k: nat) {
    app <= FLASH_BASE + UF2_PAYLOAD * k && UF2_PAYLOAD * (k + 1) < FLASH_SIZE
  }

  /** Memory `v` with the writable blocks among `ks` replaced by those of `src`. */
  function Replaced(v: Image, src: Image, app: int, ks: set<nat>): Image {
    seq(FLASH_SIZE, i requires 0 <= i < FLASH_SIZE =>
      if i / UF2_PAYLOAD in ks && Writable(app, i / UF2_PAYLOAD) then src[i] else v[i])
  }

  lemma ReplacedTwice(v: Image, src: Image, app: int, a: set<nat>, b: set<nat>)
    ensures Replaced(Replaced(v, src, app, a), src, app, b) == Replaced(v, src, app, a + b)
  {
  }

  lemma ReplacedNone(v: Image, src: Image, app: int)
    ensures Replaced(v, src, app, {}) == v
  {
  }

  lemma ReplacedBlock(v: Image, src: Image, app: int, k: nat)
    requires k < DISK_BLOCKS && Writable(app, k)
    ensures Overlay(v, UF2_PAYLOAD * k, src[UF2_PAYLOAD * k..UF2_PAYLOAD * (k + 1)]) == Replaced(v, src, app, {k})
  {
    forall i | 0 <= i < FLASH_SIZE
      ensures i / UF2_PAYLOAD == k <==> UF2_PAYLOAD * k <= i < UF2_PAYLOAD * (k + 1)
    {
    }
  }

  lemma ReplacedUnwritable(v: Image, src: Image, app: int, k: nat)
    requires !Writable(app, k)
    ensures Replaced(v, src, app, {k}) == v
  {
  }

  /** One sector of the file, whichever device it came from. */
  lemma SectorStored(app: int, c: Cache, src: Image, k: nat)
    requires FLASH_BASE <= app && k < DISK_BLOCKS && Inv(c) && Healthy(c.chip) && FitsFat(src)
    ensures
      var r := FlashPart(app, c, FlashBlock(src, k));
      Healthy(r.chip) && View(r) == Replaced(View(c), src, app, {k}) && r.restarted == c.restarted
  {
    hide View, WriteLoop, Replaced, Overlay, PageAddress, FlashBlock, FlashPart, InBounds, OneOrAligned;
    var b := FlashBlock(src, k);
    var dst := FLASH_BASE + UF2_PAYLOAD * k;
    FileBlock(src, k);
    FileWrite(app, c, src, k);
    if Writable(app, k) {
      PayloadBounds(src, k);
      WriteLoopView(c, dst, Packet(b.data), UF2_PAYLOAD);
      WriteLoopTimers(c, dst, Packet(b.data), UF2_PAYLOAD);
      ReplacedBlock(View(c), src, app, k);
    } else {
      ReplacedUnwritable(View(c), src, app, k);
    }
  }

  lemma HandleView(app: int, d: Disk, src: Image, e: Event)
    requires FLASH_BASE <= app && Inv(d.cache) && ProperEvent(e) && Healthy(d.cache.chip)
    ensures Healthy(Handle(app, d, src, e).cache.chip)
    ensures View(Handle(app, d, src, e).cache) == Replaced(View(d.cache), src, app, Sent([e]))
  {
    hide View, Replaced, WriteBlockCore, Tick, FileSector, Foreign;
    match e
    case Send(k) =>
      assert Sent([e]) == {k};
      SendView(app, d, src, k);
    case Stray(sector) =>
      assert Sent([e]) == {};
      ForeignIgnored(app, d, sector);
      ReplacedNone(View(d.cache), src, app);
    case TickEvent =>
      assert Sent([e]) == {};
      TickView(d.cache);
      ReplacedNone(View(d.cache), src, app);
  }

  lemma SendView(app: int, d: Disk, src: Image, k: nat)
    requires FLASH_BASE <= app && Inv(d.cache) && k < DISK_BLOCKS && Healthy(d.cache.chip)
    ensures
      var r := Handle(app, d, src, Send(k)).cache;
      Healthy(r.chip) && View(r) == Replaced(View(d.cache), src, app, {k})
  {
    hide Count, View, Replaced, FlashPart, Decode, FlashBlock;
    ImageFits(src);
    FileBlock(src, k);
    SectorStored(app, d.cache, src, k);
    TimerView(FlashPart(app, d.cache, FlashBlock(src, k)), SHORT_DELAY);
    TimerView(FlashPart(app, d.cache, FlashBlock(src, k)), LONG_DELAY);
    assert Decode(FileSector(src, k)) == FlashBlock(src, k);
  }

  lemma TickView(c: Cache)
    requires Inv(c) && Healthy(c.chip)
    ensures Healthy(Tick(c).chip) && View(Tick(c)) == View(c)
  {
    hide FlushedChip;
    FlushKeepsView(c.(ms := Wrap(c.ms + 1)));
  }

  /** A copy of CURRENT.UF2 from any device, fed in any order, with any repeats, with foreign sectors in between and
      with the timer running: the view becomes that device's memory in exactly the application blocks that arrived,
      except the last block of flash. */
  lemma {:induction false} FileReplacesBlocks(app: int, d: Disk, src: Image, events: seq<Event>)
    requires FLASH_BASE <= app && Inv(d.cache) && Healthy(d.cache.chip) && forall e :: e in events ==> ProperEvent(e)
    ensures
      var r := Receive(app, d, src, events);
      && Healthy(r.cache.chip)
      && View(r.cache) == Replaced(View(d.cache), src, app, Sent(events[..Handled(app, d, src, events)]))
    decreases |events|
  {
    hide Handle, Replaced, View;
    if events == [] || d.cache.restarted {
      assert Sent(events[..0]) == {};
      ReplacedNone(View(d.cache), src, app);
    } else {
      var e, rest := events[0], events[1..];
      var d1 := Handle(app, d, src, e);
      HandleView(app, d, src, e);
      FileReplacesBlocks(app, d1, src, rest);
      var n := Handled(app, d1, src, rest);
      assert events[..n + 1] == [e] + rest[..n];
      assert Sent(events[..n + 1]) == Sent([e]) + Sent(rest[..n]);
      ReplacedTwice(View(d.cache), src, app, Sent([e]), Sent(rest[..n]));
    }
  }

  /** If every block arrived, then after the flush the device's application region equals the source's, block for block,
      up to the last block of flash; everything below it is untouched. */
  lemma CopyToAnotherDevice(app: int, d: Disk, src: Image, events: seq<Event>, i: nat)
    requires FLASH_BASE <= app && Inv(d.cache) && Healthy(d.cache.chip) && forall e :: e in events ==> ProperEvent(e)
    requires Handled(app, d, src, events) == |events| && forall k: nat :: k < DISK_BLOCKS ==> k in Sent(events)
    requires i < FLASH_SIZE
    ensures
      var g := Flush(Receive(app, d, src, events).cache).chip.flash;
      g[i] == if Writable(app, i / UF2_PAYLOAD) then src[i] else View(d.cache)[i]
  {
    hide View, Receive, Handled, FlushedChip;
    FileReplacesBlocks(app, d, src, events);
    assert events[..|events|] == events;
    FlushKeepsView(Receive(app, d, src, events).cache);
  }

  // ---------- a whole file, against the reset timer ----------

  /** Ticks since the last sector, or since the start. */
  function TicksSince(events: seq<Event>): (n: nat)
    ensures n <= |events|
  {
    if events == [] || events[|events| - 1].Send? then 0
    else TicksSince(events[..|events| - 1]) + if events[|events| - 1].TickEvent? then 1 else 0
  }

  function TickCount(events: seq<Event>): (n: nat)
    ensures TicksSince(events) <= n <= |events|
  {
    if events == [] then 0 else TickCount(events[..|events| - 1]) + if events[|events| - 1].TickEvent? then 1 else 0
  }

  predicate AllSent(events: seq<Event>) {
    forall k: nat :: k < DISK_BLOCKS ==> k in Sent(events)
  }

  /** How long the device waits after the last sector. */
  function Delay(events: seq<Event>): nat {
    if AllSent(events) then SHORT_DELAY else LONG_DELAY
  }

  /** Before this point the host never paused long enough for the reset timer to run out. */
  predicate InTime(events: seq<Event>) {
    forall n :: 0 <= n <= |events| && Sent(events[..n]) != {} ==> TicksSince(events[..n]) < Delay(events[..n])
  }

  lemma InTimePrefix(events: seq<Event>, n: nat)
    requires InTime(events) && n <= |events|
    ensures InTime(events[..n])
  {
    forall m | 0 <= m <= n && Sent(events[..n][..m]) != {}
      ensures TicksSince(events[..n][..m]) < Delay(events[..n][..m])
    {
      assert events[..n][..m] == events[..m];
    }
  }

  predicate ProperEvents(events: seq<Event>) {
    forall e :: e in events ==> ProperEvent(e)
  }

  lemma ProperParts(events: seq<Event>)
    requires ProperEvents(events) && events != []
    ensures ProperEvents(events[..|events| - 1]) && ProperEvent(events[|events| - 1])
    ensures events == events[..|events| - 1] + [events[|events| - 1]]
  {
  }

  lemma SentSplit(events: seq<Event>, e: Event)
    ensures Sent(events + [e]) == Sent(events) + if e.Send? then {e.k} else {}
    ensures (events + [e])[..|events|] == events
  {
  }

  /** The blocks sent, in order. */
  function BlocksOf(src: Image, events: seq<Event>): seq<Uf2Block>
    requires FitsFat(src) && ProperEvents(events)
  {
    if events == [] then []
    else
      ProperParts(events);
      match events[|events| - 1]
      case Send(k) =>
        FileBlock(src, k);
        BlocksOf(src, events[..|events| - 1]) + [FlashBlock(src, k)]
      case _ => BlocksOf(src, events[..|events| - 1])
  }

  lemma {:induction false} BlocksAreFile(src: Image, events: seq<Event>)
    requires FitsFat(src) && ProperEvents(events)
    ensures OneFile(BlocksOf(src, events), DISK_BLOCKS) && Numbers(BlocksOf(src, events)) == Sent(events)
    ensures BlocksOf(src, events) == [] <==> Sent(events) == {}
  {
    hide FlashBlock, Sent, Numbers;
    if events == [] {
      NothingSent(events, BlocksOf(src, events));
    } else {
      ProperParts(events);
      var rest, e := events[..|events| - 1], events[|events| - 1];
      BlocksAreFile(src, rest);
      SentSplit(rest, e);
      if e.Send? {
        FileBlock(src, e.k);
        var blocks := BlocksOf(src, rest);
        NumbersSplit(blocks + [FlashBlock(src, e.k)]);
        assert (blocks + [FlashBlock(src, e.k)])[..|blocks|] == blocks;
      }
    }
  }

  lemma NothingSent(events: seq<Event>, blocks: seq<Uf2Block>)
    requires events == [] && blocks == []
    ensures Sent(events) == {} && Numbers(blocks) == {}
  {
  }

  // ---------- the clock ----------

  /** The device has handled everything so far; its reset timer is as many milliseconds away as the last sector
      allows. */
  predicate Going(app: int, d: Disk, src: Image, events: seq<Event>)
    requires Inv(d.cache) && ProperEvents(events) && FitsFat(src)
  {
    var r := Receive(app, d, src, events);
    && !r.cache.restarted && Handled(app, d, src, events) == |events|
    && r.cache.ms == d.cache.ms + TickCount(events)
    && r.state == CountAll(d.state, BlocksOf(src, events)).0
    && (if Sent(events) == {} then r.cache.resetTime == 0
        else r.cache.resetTime == r.cache.ms - TicksSince(events) + Delay(events))
  }

  /** A device that waits for a file, with a clock that will not wrap while it comes. */
  predicate Waiting(d: Disk, events: seq<Event>) {
    && Inv(d.cache) && Healthy(d.cache.chip) && d.cache.resetTime == 0 && !d.cache.restarted
    && d.cache.ms + |events| + LONG_DELAY < 0x1_0000_0000
  }

  lemma {:induction false} ReceiveOneMore(app: int, d: Disk, src: Image, events: seq<Event>, e: Event)
    requires Inv(d.cache) && ProperEvents(events) && ProperEvent(e)
    requires Handled(app, d, src, events) == |events| && !Receive(app, d, src, events).cache.restarted
    ensures ProperEvents(events + [e])
    ensures Receive(app, d, src, events + [e]) == Handle(app, Receive(app, d, src, events), src, e)
    ensures Handled(app, d, src, events + [e]) == |events| + 1
    decreases |events|
  {
    hide Handle;
    if events == [] {
      assert [e][1..] == [];
    } else {
      ReceiveOneMore(app, Handle(app, d, src, events[0]), src, events[1..], e);
      assert (events + [e])[1..] == events[1..] + [e];
    }
  }

  predicate SameTimers(r: Cache, c: Cache) {
    r.ms == c.ms && r.resetTime == c.resetTime && r.restarted == c.restarted
  }

  lemma FlashPartTimers(app: int, c: Cache, src: Image, k: nat)
    requires FLASH_BASE <= app && k < DISK_BLOCKS && Inv(c) && FitsFat(src)
    ensures
      var b := FlashBlock(src, k);
      NoWrap(b) && SameTimers(FlashPart(app, c, b), c)
  {
    hide FlashBlock, FlashPart, WriteLoop;
    FileBlock(src, k);
    FileWrite(app, c, src, k);
    if Writable(app, k) {
      WriteLoopTimers(c, FLASH_BASE + UF2_PAYLOAD * k, Packet(FlashBlock(src, k).data), UF2_PAYLOAD);
    }
  }

  /** A sector of the file sets the timer anew. */
  lemma SendArms(app: int, d: Disk, src: Image, k: nat)
    requires FLASH_BASE <= app && k < DISK_BLOCKS && Inv(d.cache) && FitsFat(src)
    ensures
      var (st, complete) := Count(d.state, FlashBlock(src, k));
      var r := Handle(app, d, src, Send(k));
      && r.state == st && r.cache.ms == d.cache.ms && r.cache.restarted == d.cache.restarted
      && r.cache.resetTime == Wrap(d.cache.ms + if complete then SHORT_DELAY else LONG_DELAY)
  {
    hide FlashBlock, FlashPart, Count, Decode;
    FileBlock(src, k);
    FlashPartTimers(app, d.cache, src, k);
    assert Decode(FileSector(src, k)) == FlashBlock(src, k);
  }

  /** A tick that comes in time only moves the clock. */
  lemma TickInTime(app: int, d: Disk, src: Image)
    requires Inv(d.cache) && FitsFat(src) && d.cache.ms + 1 < 0x1_0000_0000
    requires d.cache.resetTime == 0 || d.cache.ms + 1 < d.cache.resetTime
    ensures
      var r := Handle(app, d, src, TickEvent);
      && r.state == d.state && r.cache.ms == d.cache.ms + 1 && r.cache.restarted == d.cache.restarted
      && r.cache.resetTime == d.cache.resetTime
  {
    hide FlushedChip;
  }

  lemma {:induction false} AllGoing(app: int, d: Disk, src: Image, events: seq<Event>)
    requires FLASH_BASE <= app && FitsFat(src) && ProperEvents(events) && Waiting(d, events) && InTime(events)
    requires d.state == INITIAL_STATE
    ensures Going(app, d, src, events)
    decreases |events|
  {
    if events == [] {
      assert Sent(events) == {};
    } else {
      var rest, e := events[..|events| - 1], events[|events| - 1];
      ProperParts(events);
      InTimePrefix(events, |rest|);
      AllGoing(app, d, src, rest);
      ReceiveOneMore(app, d, src, rest, e);
      match e {
        case Send(k) => GoingSend(app, d, src, rest, k);
        case Stray(sector) => GoingStray(app, d, src, rest, sector);
        case TickEvent => GoingTick(app, d, src, rest);
      }
    }
  }

  lemma GoingTick(app: int, d: Disk, src: Image, events: seq<Event>)
    requires FitsFat(src) && ProperEvents(events) && ProperEvents(events + [TickEvent])
    requires Waiting(d, events + [TickEvent]) && InTime(events + [TickEvent]) && Going(app, d, src, events)
    requires Receive(app, d, src, events + [TickEvent]) == Handle(app, Receive(app, d, src, events), src, TickEvent)
    requires Handled(app, d, src, events + [TickEvent]) == |events| + 1
    ensures Going(app, d, src, events + [TickEvent])
  {
    hide Handle, Receive, Handled, BlocksOf, Sent, CountAll, AllSent;
    var more := events + [TickEvent];
    SentSplit(events, TickEvent);
    SameAllSent(events, more);
    assert more[..|more|] == more;
    TickInTime(app, Receive(app, d, src, events), src);
    BlocksSame(src, events, TickEvent);
  }

  lemma GoingStray(app: int, d: Disk, src: Image, events: seq<Event>, sector: Sector)
    requires FitsFat(src) && ProperEvents(events) && ProperEvents(events + [Stray(sector)]) && Foreign(sector)
    requires Inv(d.cache) && Going(app, d, src, events)
    requires Receive(app, d, src, events + [Stray(sector)]) ==
      Handle(app, Receive(app, d, src, events), src, Stray(sector))
    requires Handled(app, d, src, events + [Stray(sector)]) == |events| + 1
    ensures Going(app, d, src, events + [Stray(sector)])
  {
    hide Receive, Handled, BlocksOf, Sent, CountAll, AllSent, WriteBlockCore;
    var more := events + [Stray(sector)];
    SentSplit(events, Stray(sector));
    SameAllSent(events, more);
    assert more[|events|] == Stray(sector) && more[..|events|] == events;
    ForeignIgnored(app, Receive(app, d, src, events), sector);
    BlocksSame(src, events, Stray(sector));
  }

  lemma SameAllSent(a: seq<Event>, b: seq<Event>)
    requires Sent(a) == Sent(b)
    ensures AllSent(a) == AllSent(b)
  {
  }

  lemma BlocksSame(src: Image, events: seq<Event>, e: Event)
    requires FitsFat(src) && ProperEvents(events) && ProperEvents(events + [e]) && !e.Send?
    ensures BlocksOf(src, events + [e]) == BlocksOf(src, events)
  {
    assert (events + [e])[..|events|] == events;
  }

  lemma BlocksSend(src: Image, events: seq<Event>, k: nat)
    requires FitsFat(src) && k < DISK_BLOCKS && ProperEvents(events) && ProperEvents(events + [Send(k)])
    ensures BlockOffset(k) < |src| && BlocksOf(src, events + [Send(k)]) == BlocksOf(src, events) + [FlashBlock(src, k)]
  {
    FileBlock(src, k);
    assert (events + [Send(k)])[..|events|] == events;
  }

  lemma GoingSend(app: int, d: Disk, src: Image, events: seq<Event>, k: nat)
    requires FLASH_BASE <= app && FitsFat(src) && k < DISK_BLOCKS && ProperEvents(events)
      && ProperEvents(events + [Send(k)])
    requires Waiting(d, events + [Send(k)]) && Going(app, d, src, events) && d.state == INITIAL_STATE
    requires Receive(app, d, src, events + [Send(k)]) == Handle(app, Receive(app, d, src, events), src, Send(k))
    requires Handled(app, d, src, events + [Send(k)]) == |events| + 1
    ensures Going(app, d, src, events + [Send(k)])
  {
    hide Handle, Receive, Handled, BlocksOf, Sent, Count, CountAll, AllSent, FlashBlock;
    SentSplit(events, Send(k));
    SendArms(app, Receive(app, d, src, events), src, k);
    SendCounts(src, events, k);
    SendClock(events, k);
  }

  lemma SendClock(events: seq<Event>, k: nat)
    ensures TicksSince(events + [Send(k)]) == 0 && TickCount(events + [Send(k)]) == TickCount(events)
  {
    assert (events + [Send(k)])[..|events|] == events;
  }

  /** Counting one more sector of the file completes it exactly when all of it has been sent. */
  lemma SendCounts(src: Image, events: seq<Event>, k: nat)
    requires FitsFat(src) && k < DISK_BLOCKS && ProperEvents(events) && ProperEvents(events + [Send(k)])
    ensures BlockOffset(k) < |src|
    ensures
      var counted := Count(CountAll(INITIAL_STATE, BlocksOf(src, events)).0, FlashBlock(src, k));
      counted == CountAll(INITIAL_STATE, BlocksOf(src, events + [Send(k)])) && counted.1 == AllSent(events + [Send(k)])
  {
    hide BlocksOf, Sent, Count, AllSent, FlashBlock, Numbers, OneFile;
    var more := events + [Send(k)];
    BlocksSend(src, events, k);
    var blocks, b := BlocksOf(src, events), FlashBlock(src, k);
    assert (blocks + [b])[..|blocks|] == blocks;
    BlocksAreFile(src, more);
    CompleteIffAllSeen(blocks + [b], DISK_BLOCKS);
    AllSentIs(src, more);
  }

  lemma AllSentIs(src: Image, events: seq<Event>)
    requires FitsFat(src) && ProperEvents(events)
    ensures AllSent(events) <==> forall i: nat :: i < DISK_BLOCKS ==> i in Numbers(BlocksOf(src, events))
  {
    hide Sent, Numbers;
    BlocksAreFile(src, events);
  }

  function Idle(n: nat): seq<Event> {
    seq(n, _ => TickEvent)
  }

  /** Pausing for less than the delay is still in time. */
  lemma {:induction false} IdleInTime(events: seq<Event>, n: nat)
    requires InTime(events) && AllSent(events) && TicksSince(events) + n < SHORT_DELAY
    ensures InTime(events + Idle(n)) && Sent(events + Idle(n)) == Sent(events)
    ensures TicksSince(events + Idle(n)) == TicksSince(events) + n
  {
    if n == 0 {
      assert events + Idle(0) == events;
    } else {
      IdleInTime(events, n - 1);
      var p := events + Idle(n - 1);
      assert events + Idle(n) == p + [TickEvent];
      SentSplit(p, TickEvent);
      SameAllSent(p, events);
      SameAllSent(p + [TickEvent], events);
      InTimeOneMore(p, TickEvent);
    }
  }

  lemma InTimeOneMore(events: seq<Event>, e: Event)
    requires InTime(events) && TicksSince(events + [e]) < Delay(events + [e])
    ensures InTime(events + [e])
  {
    var more := events + [e];
    forall n | 0 <= n <= |more| && Sent(more[..n]) != {}
      ensures TicksSince(more[..n]) < Delay(more[..n])
    {
      if n <= |events| {
        assert more[..n] == events[..n];
      } else {
        assert more[..n] == more;
      }
    }
  }

  /** The tick on which the reset is due: what is cached is written back, and the device restarts. */
  lemma TickRestarts(app: int, d: Disk, src: Image)
    requires Inv(d.cache) && Healthy(d.cache.chip) && FitsFat(src) && d.cache.ms + 1 == d.cache.resetTime
    ensures
      var r := Handle(app, d, src, TickEvent);
      r.cache.restarted && r.cache.chip.flash == View(d.cache)
  {
    hide FlushedChip, WriteBlockCore, View;
    TickOut(d.cache);
  }

  lemma TickOut(c: Cache)
    requires Inv(c) && Healthy(c.chip) && c.ms + 1 == c.resetTime
    ensures Tick(c).restarted && Tick(c).chip.flash == View(c)
  {
    hide FlushedChip;
    TickEffect(c);
    FlushKeepsView(c.(ms := c.ms + 1));
  }

  /** A whole CURRENT.UF2, from any device, in any order, with any repeats and foreign sectors, and with pauses of less
      than half a second until all of it has come: thirty milliseconds after the last block the device restarts, and
      its flash is by then the source's, block for block, in the application region up to the last block; everything
      below is untouched. */
  lemma WholeFileInstalls(app: int, d: Disk, src: Image, events: seq<Event>, i: nat)
    requires FLASH_BASE <= app && ProperEvents(events) && d.state == INITIAL_STATE && i < FLASH_SIZE
    requires Waiting(d, events + Idle(SHORT_DELAY)) && InTime(events) && AllSent(events)
    ensures TicksSince(events) < SHORT_DELAY && ProperEvents(events + Idle(SHORT_DELAY - TicksSince(events)))
    ensures
      var r := Receive(app, d, src, events + Idle(SHORT_DELAY - TicksSince(events)));
      && r.cache.restarted
      && r.cache.chip.flash[i] == if Writable(app, i / UF2_PAYLOAD) then src[i] else View(d.cache)[i]
  {
    hide Handle, Receive, Handled, Sent, View, Going, AllSent, Replaced, InTime, TicksSince;
    ImageFits(src);
    LastInTime(events);
    var n := SHORT_DELAY - TicksSince(events);
    IdleInTime(events, n - 1);
    IdleProper(events, n - 1);
    var p := events + Idle(n - 1);
    assert |p| <= |events + Idle(SHORT_DELAY)|;
    AllGoing(app, d, src, p);
    DueNext(app, d, src, p, events);
    ReceiveOneMore(app, d, src, p, TickEvent);
    assert p + [TickEvent] == events + Idle(n);
    FileReplacesBlocks(app, d, src, p);
    TickRestarts(app, Receive(app, d, src, p), src);
    AllReplaced(View(d.cache), src, app, p, events, i);
  }

  lemma LastInTime(events: seq<Event>)
    requires InTime(events) && AllSent(events)
    ensures TicksSince(events) < SHORT_DELAY
  {
    assert events[..|events|] == events;
    assert 0 in Sent(events);
  }

  lemma IdleProper(events: seq<Event>, n: nat)
    requires ProperEvents(events)
    ensures ProperEvents(events + Idle(n))
  {
  }

  lemma DueNext(app: int, d: Disk, src: Image, p: seq<Event>, events: seq<Event>)
    requires Inv(d.cache) && ProperEvents(p) && FitsFat(src) && Going(app, d, src, p) && AllSent(events)
      && Sent(p) == Sent(events)
    requires TicksSince(p) == SHORT_DELAY - 1
    ensures
      var r := Receive(app, d, src, p);
      !r.cache.restarted && Handled(app, d, src, p) == |p| && r.cache.ms + 1 == r.cache.resetTime
  {
    hide Receive, Handled;
    SameAllSent(p, events);
    assert 0 in Sent(events);
  }

  lemma AllReplaced(v: Image, src: Image, app: int, p: seq<Event>, events: seq<Event>, i: nat)
    requires AllSent(events) && Sent(p) == Sent(events) && i < FLASH_SIZE
    ensures Replaced(v, src, app, Sent(p[..|p|]))[i] == if Writable(app, i / UF2_PAYLOAD) then src[i] else v[i]
  {
    assert p[..|p|] == p;
    assert i / UF2_PAYLOAD < DISK_BLOCKS;
  }

  // ---------- the device's own file ----------

  /** The cached page, if any, is what flash already holds. */
  predicate Clean(c: Cache, chip: Chip) {
    Inv(c) && c.chip == chip && (c.addr == NO_CACHE || c.buf == PageAt(chip.flash, c.addr))
  }

  lemma CleanFlush(c: Cache, chip: Chip)
    requires Clean(c, chip)
    ensures Clean(Flush(c), chip)
  {
  }

  lemma CleanSector(app: int, c: Cache, chip: Chip, k: nat)
    requires FLASH_BASE <= app && k < DISK_BLOCKS && Clean(c, chip) && FitsFat(chip.flash)
    ensures Clean(FlashPart(app, c, FlashBlock(chip.flash, k)), chip)
  {
    hide ProgramPage, FlashBlock, FlashPart, Overlay, PageAddress, PageAt, WriteChunk, WriteLoop, InBounds;
    var f := chip.flash;
    var b := FlashBlock(f, k);
    var dst, src := FLASH_BASE + UF2_PAYLOAD * k, Packet(b.data);
    FileBlock(f, k);
    FileWrite(app, c, f, k);
    if Writable(app, k) {
      SameBytes(f, k);
      PayloadBounds(f, k);
      OneChunk(c, dst, src, UF2_PAYLOAD);
      CleanChunk(c, chip, dst, src);
    }
  }

  lemma PayloadBounds(f: Image, k: nat)
    requires k < DISK_BLOCKS && UF2_PAYLOAD * (k + 1) < FLASH_SIZE && FitsFat(f)
    ensures
      var dst := FLASH_BASE + UF2_PAYLOAD * k;
      BlockOffset(k) < |f| && InBounds(dst, Packet(FlashBlock(f, k).data), UF2_PAYLOAD)
  {
    hide FlashBlock, PageAddress;
    FileBlock(f, k);
    QuarterPage(k);
  }

  /** Copying into the buffer what flash holds there keeps the cached page clean. */
  lemma CleanChunk(c: Cache, chip: Chip, dst: int, src: Source)
    requires Clean(c, chip) && InBounds(dst, src, UF2_PAYLOAD) && src.Packet?
      && dst % FLASH_PAGE_SIZE + UF2_PAYLOAD <= FLASH_PAGE_SIZE && PageInFlash(PageAddress(dst))
    requires Overlay(PageAt(chip.flash, PageAddress(dst)), dst % FLASH_PAGE_SIZE, src.data[..UF2_PAYLOAD]) ==
      PageAt(chip.flash, PageAddress(dst))
    ensures Clean(WriteChunk(c, dst, src, UF2_PAYLOAD), chip)
  {
    hide ProgramPage, Overlay, PageAddress, PageAt;
  }

  lemma SameBytes(f: Image, k: nat)
    requires k < DISK_BLOCKS
    ensures
      var dst := FLASH_BASE + UF2_PAYLOAD * k;
      && PageInFlash(PageAddress(dst)) && dst % FLASH_PAGE_SIZE + UF2_PAYLOAD <= FLASH_PAGE_SIZE
      && Overlay(PageAt(f, PageAddress(dst)), dst % FLASH_PAGE_SIZE, f[UF2_PAYLOAD * k..UF2_PAYLOAD * (k + 1)]) ==
          PageAt(f, PageAddress(dst))
  {
    hide PageAddress, Overlay, PageInFlash;
    var page, offset := FLASH_PAGE_SIZE * (k / 4), UF2_PAYLOAD * (k % 4);
    QuarterPage(k);
    SliceOfSlice(f, page, FLASH_PAGE_SIZE, offset, UF2_PAYLOAD);
    OverlaySelf(f[page..page + FLASH_PAGE_SIZE], offset, UF2_PAYLOAD);
  }

  lemma QuarterPage(k: nat)
    requires k < DISK_BLOCKS
    ensures
      var dst := FLASH_BASE + UF2_PAYLOAD * k;
      PageAddress(dst) == FLASH_BASE + FLASH_PAGE_SIZE * (k / 4) && dst % FLASH_PAGE_SIZE == UF2_PAYLOAD * (k % 4)
      && PageInFlash(PageAddress(dst)) && FLASH_PAGE_SIZE * (k / 4) + UF2_PAYLOAD * (k % 4) == UF2_PAYLOAD * k
  {
    var q, r := k / 4, k % 4;
    assert k == 4 * q + r;
    assert FLASH_BASE + UF2_PAYLOAD * k == FLASH_PAGE_SIZE * (FLASH_BASE / FLASH_PAGE_SIZE + q) + UF2_PAYLOAD * r;
    DivMod(FLASH_BASE / FLASH_PAGE_SIZE + q, UF2_PAYLOAD * r);
    DivMod(FLASH_BASE / FLASH_PAGE_SIZE + q, 0);
  }

  lemma DivMod(q: int, r: int)
    requires 0 <= r < FLASH_PAGE_SIZE
    ensures (FLASH_PAGE_SIZE * q + r) / FLASH_PAGE_SIZE == q && (FLASH_PAGE_SIZE * q + r) % FLASH_PAGE_SIZE == r
  {
  }

  /** Feeding a device its own CURRENT.UF2, in any order, with any repeats and ticks, is not even noticed by the flash
      controller: no page is erased and no cell programmed, on any hardware. */
  lemma {:induction false} OwnFileChangesNothing(app: int, d: Disk, events: seq<Event>)
    requires FLASH_BASE <= app && Inv(d.cache) && forall e :: e in events ==> ProperEvent(e)
    requires Clean(d.cache, d.cache.chip)
    ensures
      var r := Receive(app, d, d.cache.chip.flash, events);
      Clean(r.cache, d.cache.chip) && Flush(r.cache).chip == d.cache.chip
    decreases |events|
  {
    hide Clean, FlushedChip, Handle;
    var chip := d.cache.chip;
    if events == [] || d.cache.restarted {
      CleanFlush(d.cache, chip);
      CleanChip(Flush(d.cache), chip);
    } else {
      var d1 := Handle(app, d, chip.flash, events[0]);
      CleanEvent(app, d, events[0]);
      CleanChip(d1.cache, chip);
      OwnFileChangesNothing(app, d1, events[1..]);
    }
  }

  lemma CleanEvent(app: int, d: Disk, e: Event)
    requires FLASH_BASE <= app && Inv(d.cache) && ProperEvent(e) && Clean(d.cache, d.cache.chip)
    ensures Clean(Handle(app, d, d.cache.chip.flash, e).cache, d.cache.chip)
  {
    hide Count, Clean, FlushedChip, FlashPart, Decode, FileSector, StartTimer;
    var chip := d.cache.chip;
    match e
    case Send(k) =>
      ImageFits(chip.flash);
      var c := FlashPart(app, d.cache, FlashBlock(chip.flash, k));
      CleanSector(app, d.cache, chip, k);
      CleanTimer(c, chip, SHORT_DELAY);
      CleanTimer(c, chip, LONG_DELAY);
    case Stray(sector) => ForeignIgnored(app, d, sector);
    case TickEvent => CleanTick(d.cache, chip);
  }

  lemma CleanChip(c: Cache, chip: Chip)
    requires Clean(c, chip)
    ensures c.chip == chip
  {
  }

  lemma CleanTimer(c: Cache, chip: Chip, delay: nat)
    requires Clean(c, chip)
    ensures Clean(StartTimer(c, delay), chip)
  {
  }

  lemma CleanTick(c: Cache, chip: Chip)
    requires Clean(c, chip)
    ensures Clean(Tick(c), chip)
  {
  }

  // ---------- the mutable receiver ----------

  class Uf2Receiver {
    const app: int
    const fat: FlashCache
    var numBlocks: Word
    var numWritten: nat
    const writtenMask: array<bv8>

    ghost function Repr(): set<object> {
      {this, writtenMask} + fat.Repr()
    }

    ghost predicate Valid()
      reads Repr()
    {
      fat.Valid() && this !in fat.Repr() && writtenMask !in fat.Repr() && writtenMask.Length == MASK_BYTES
    }

    ghost function Value(): (d: Disk)
      requires Valid()
      reads Repr()
      ensures Inv(d.cache)
    {
      Disk(fat.Value(), WriteState(numBlocks, numWritten, writtenMask[..]))
    }

    constructor (app: int, fat: FlashCache)
      requires fat.Valid()
      ensures Valid() && this.app == app && this.fat == fat && Value() == Disk(fat.Value(), INITIAL_STATE)
    {
      this.app := app;
      this.fat := fat;
      numBlocks, numWritten := 0, 0;
      writtenMask := new bv8[MASK_BYTES](_ => 0);
    }

    /** Sets the block's bit, counting it if it was clear. */
    method MarkBlock(blockNo: nat)
      requires Valid() && blockNo < MAX_BLOCKS
      modifies this`numWritten, writtenMask
      ensures Valid() && fat.Value() == old(fat.Value())
      ensures
        var mask: Mask := old(writtenMask[..]);
        && writtenMask[..] == (if IsSet(mask, blockNo) then mask else SetBit(mask, blockNo))
        && numWritten == (if IsSet(mask, blockNo) then old(numWritten) else old(numWritten) + 1)
    {
      hide Bit;
      var bit, pos := Bit(blockNo % 8), blockNo / 8;
      ghost var mask: Mask := writtenMask[..];
      assert IsSet(mask, blockNo) <==> writtenMask[pos] & bit != 0;
      hide IsSet;
      if writtenMask[pos] & bit == 0 {
        writtenMask[pos] := writtenMask[pos] | bit;
        assert writtenMask[..] == SetBit(mask, blockNo);
        numWritten := numWritten + 1;
      }
    }

    /** The counting part: reconciles the length, sets the block's bit, and reports completion. */
    method CountBlock(b: Uf2Block) returns (complete: bool)
      requires Valid()
      modifies this, writtenMask
      ensures Valid() && fat.Value() == old(fat.Value())
      ensures (Value().state, complete) == Count(old(Value().state), b)
    {
      hide IsSet, SetBit;
      complete := false;
      if b.numBlocks == 0 { return; }
      if numBlocks != b.numBlocks {
        if b.numBlocks >= MAX_BLOCKS || numBlocks != 0 {
          numBlocks := POISON;
        } else {
          numBlocks := b.numBlocks;
        }
      }
      if b.blockNo < MAX_BLOCKS {
        MarkBlock(b.blockNo);
        complete := numWritten >= numBlocks;
      }
    }

    method WriteSector(sector: Sector)
      requires Valid() && InModel(app, Decode(sector))
      modifies Repr()
      ensures Valid() && Value() == WriteBlockCore(app, old(Value()), sector)
    {
      hide Decode, FlashWrite, Count;
      var b := Decode(sector);
      if !IsUf2(b) || !IsMyFamily(b) { return; }
      if !Skipped(app, b) {
        BlockInPage(b);
        fat.WriteToFlash(b.targetAddr, Packet(b.data), b.payloadSize);
      }
      var complete := CountBlock(b);
      fat.resetTime := Wrap(fat.ms + if complete then SHORT_DELAY else LONG_DELAY);
    }
  }
}
