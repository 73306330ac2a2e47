// ghostfat.c: the one-page write-back cache between the USB interfaces and flash.

module PageCache {
  import opened Platform
  import opened FlashHardware
  import opened Baseloader

  const NO_CACHE := 0xffff_ffff

  /** Where flashBuf sits in high RAM: the start of the bootbuf region. */
  const FLASH_BUF := 0x2000_5000 - 2116

  /** What flash_write copies from: a buffer in RAM, or an address in flash that is read while writing. */
  datatype Source = Packet(data: seq<Byte>) | Rom(at: int)

  /** The module's variables: cached page (or NO_CACHE), its buffer and the millisecond timers; `restarted` is set
      once the device has rebooted into the application. */
  datatype Cache = Cache(chip: Chip, addr: int, buf: Page, ms: Word, resetTime: Word, lastFlush: Word, restarted: bool)

  predicate Inv(s: Cache) {
    s.addr == NO_CACHE || PageInFlash(s.addr)
  }

  /** What flash holds once the cached page is written back. */
  function View(s: Cache): Image
    requires Inv(s)
  {
    if s.addr == NO_CACHE then s.chip.flash else Overlay(s.chip.flash, s.addr - FLASH_BASE, s.buf)
  }

  function PageAt(flash: Image, page: int): Page
    requires PageInFlash(page)
  {
    flash[page - FLASH_BASE..page - FLASH_BASE + FLASH_PAGE_SIZE]
  }

  /** RAM with the page buffer in place. */
  function RamWith(buf: Page): Ram {
    seq(RAM_SIZE, i requires 0 <= i < RAM_SIZE =>
      var k := i + RAM_BASE - FLASH_BUF; if 0 <= k < FLASH_PAGE_SIZE then buf[k] else 0)
  }

  /** The copier parameters that write the buffer to a page. */
  function PagePara(page: int): Para
    requires PageInFlash(page)
  {
    Para(page, FLASH_BUF, FLASH_PAGE_SIZE, false, false)
  }

  /** base_flash_program_array for the cached page. */
  function ProgramPage(c: Chip, page: int, buf: Page): Chip
    requires PageInFlash(page)
  {
    Start(PagePara(page), c, RamWith(buf)).chip
  }

  function FlushedChip(s: Cache): Chip
    requires Inv(s)
  {
    if s.addr != NO_CACHE && s.buf != PageAt(s.chip.flash, s.addr) then ProgramPage(s.chip, s.addr, s.buf) else s.chip
  }

  /** Whether the copier, run for a write-back, ends by restarting the device: it never does. */
  function WriteBackResets(s: Cache): (reset: bool)
    requires Inv(s)
    ensures !reset
  {
    hide Start, PageAt;
    if s.addr == NO_CACHE || s.buf == PageAt(s.chip.flash, s.addr) then false
    else
      ResetIff(PagePara(s.addr), s.chip, RamWith(s.buf));
      Start(PagePara(s.addr), s.chip, RamWith(s.buf)).reset
  }

  /** flash_flush. It does not restart the device, whatever the hardware does. */
  function Flush(s: Cache): (r: Cache)
    requires Inv(s)
    ensures Inv(r) && r.addr == NO_CACHE && r.restarted == s.restarted
  {
    s.(chip := FlushedChip(s), addr := NO_CACHE, lastFlush := s.ms, restarted := s.restarted || WriteBackResets(s))
  }

  function Load(s: Cache, page: int): Cache
    requires PageInFlash(page)
  {
    s.(addr := page, buf := PageAt(s.chip.flash, page))
  }

  /** The bounds flash_write insists on; both are strict at the upper end. */
  predicate ValidWrite(dst: int, src: Source, count: int) {
    && dst >= 0x0800_0000 && Wrap(dst + count) < 0x0801_0000
    && (src.Rom? ==> src.at >= 0x0800_0000 && Wrap(src.at + count) < 0x0801_0000)
  }

  /** A write that starts on a page boundary or stays in one page: only then does each chunk stay in the buffer. */
  predicate OneOrAligned(dst: int, count: int) {
    dst % FLASH_PAGE_SIZE == 0 || dst % FLASH_PAGE_SIZE + count <= FLASH_PAGE_SIZE
  }

  /** Every memcpy of the loop in flash_write stays inside the page buffer. */
  predicate ChunksFit(dst: int, count: int)
    decreases count
  {
    count <= 0 ||
    var len := ChunkLength(count);
    dst % FLASH_PAGE_SIZE + len <= FLASH_PAGE_SIZE && ChunksFit(dst + len, count - len)
  }

  /** Exactly which writes keep inside the buffer: the code itself does not check this. */
  lemma {:induction false} ChunksFitIff(dst: int, count: int)
    ensures ChunksFit(dst, count) <==> count <= 0 || OneOrAligned(dst, count)
    decreases count
  {
    if count > 0 {
      ChunksFitIff(dst + ChunkLength(count), count - ChunkLength(count));
    }
  }

  predicate Supplies(src: Source, count: int) {
    match src
    case Packet(data) => count <= |data|
    case Rom(at) => FLASH_BASE <= at && at + count <= FLASH_END
  }

  function Bytes(src: Source, flash: Image, len: nat): (r: seq<Byte>)
    requires Supplies(src, len)
    ensures |r| == len
  {
    match src
    case Packet(data) => data[..len]
    case Rom(at) => flash[at - FLASH_BASE..at - FLASH_BASE + len]
  }

  function Advance(src: Source, len: nat): Source
    requires Supplies(src, len)
  {
    match src
    case Packet(data) => Packet(data[len..])
    case Rom(at) => Rom(at + len)
  }

  predicate InBounds(dst: int, src: Source, count: int) {
    FLASH_BASE <= dst && dst + count < FLASH_END && Supplies(src, count) &&
    (src.Rom? ==> src.at + count < FLASH_END) && OneOrAligned(dst, count)
  }

  /** One pass of the loop in flash_write: switch to the page if it is not the cached one, then copy into the buffer. */
  function WriteChunk(s: Cache, dst: int, src: Source, len: nat): (r: Cache)
    requires Inv(s) && 0 < len <= FLASH_PAGE_SIZE && InBounds(dst, src, len)
      && dst % FLASH_PAGE_SIZE + len <= FLASH_PAGE_SIZE
    ensures Inv(r) && r.addr == PageAddress(dst)
  {
    var page := PageAddress(dst);
    var t := if page != s.addr then Load(Flush(s), page) else s;
    t.(buf := Overlay(t.buf, dst % FLASH_PAGE_SIZE, Bytes(src, t.chip.flash, len)))
  }

  function ChunkLength(count: int): int {
    if count > FLASH_PAGE_SIZE then FLASH_PAGE_SIZE else count
  }

  function WriteLoop(s: Cache, dst: int, src: Source, count: int): (r: Cache)
    requires Inv(s) && InBounds(dst, src, count)
    ensures Inv(r)
    decreases count
  {
    if count <= 0 then s
    else
      var len := ChunkLength(count);
      ChunkFits(dst, src, count);
      WriteLoop(WriteChunk(s, dst, src, len), dst + len, Advance(src, len), count - len)
  }

  /** flash_write. The sums the bounds check forms must not exceed 32 bits. */
  function FlashWrite(s: Cache, dst: int, src: Source, count: int): (r: Cache)
    requires Inv(s) && 0 <= dst && dst + count < 0x1_0000_0000
      && (src.Rom? ==> 0 <= src.at && src.at + count < 0x1_0000_0000)
    requires (src.Packet? ==> count <= |src.data|) && OneOrAligned(dst, count)
    ensures Inv(r)
  {
    if count > 0 && ValidWrite(dst, src, count) then WriteLoop(s, dst, src, count) else s
  }

  /** ghostfat_1ms, with 32-bit wrap-around of the clock. */
  function Tick(s: Cache): (r: Cache)
    requires Inv(s)
    ensures Inv(r)
  {
    var t := s.(ms := Wrap(s.ms + 1));
    if t.resetTime != 0 && t.ms >= t.resetTime then Flush(t).(restarted := true)
    else if t.lastFlush != 0 && Wrap(t.ms - t.lastFlush) > 100 then Flush(t)
    else t
  }

  /** uf2_timer_start. */
  function StartTimer(s: Cache, delay: nat): Cache {
    s.(resetTime := Wrap(s.ms + delay))
  }

  /** A write within one page is one pass of the loop. */
  lemma OneChunk(s: Cache, dst: int, src: Source, count: nat)
    requires Inv(s) && InBounds(dst, src, count) && 0 < count && dst % FLASH_PAGE_SIZE + count <= FLASH_PAGE_SIZE
    ensures WriteLoop(s, dst, src, count) == WriteChunk(s, dst, src, count)
  {
    hide WriteChunk, OneOrAligned;
    var r := WriteChunk(s, dst, src, count);
    ChunkFits(dst, src, count);
    assert WriteLoop(s, dst, src, count) == WriteLoop(r, dst + count, Advance(src, count), 0) == r;
  }

  // ---------- flushing ----------

  lemma RamHoldsBuffer(buf: Page, k: nat)
    requires k < FLASH_PAGE_SIZE
    ensures InRam(FLASH_BUF + k) && RamWith(buf)[FLASH_BUF + k - RAM_BASE] == buf[k]
  {
  }

  /** Writing a page back changes nothing outside it, even when the hardware times out. */
  lemma ProgramPageConfined(c: Chip, page: int, buf: Page)
    requires PageInFlash(page)
    ensures Confined(c, ProgramPage(c, page, buf), page, page + FLASH_PAGE_SIZE)
  {
    hide Start, Confined;
    StartConfined(PagePara(page), c, RamWith(buf));
    AlignedPage(page);
    CeilingBounds(page + FLASH_PAGE_SIZE);
  }

  lemma PagePreview(c: Chip, page: int, ram: Ram)
    requires PageInFlash(page)
    ensures Start(PagePara(page).(preview := true), c, ram).result == FLASH_PAGE_SIZE
  {
    hide CopyLoop;
    PreviewLoop(c, ram, page, FLASH_BUF, FLASH_PAGE_SIZE / 2, 0, 0);
  }

  /** On fault-free hardware the page then holds the buffer. */
  lemma ProgramPageStores(c: Chip, page: int, buf: Page)
    requires PageInFlash(page) && Healthy(c)
    ensures Healthy(ProgramPage(c, page, buf))
    ensures ProgramPage(c, page, buf).flash == Overlay(c.flash, page - FLASH_BASE, buf)
  {
    hide Start;
    var ram := RamWith(buf);
    var c' := ProgramPage(c, page, buf);
    ProgramPageConfined(c, page, buf);
    PagePreview(c, page, ram);
    PreviewPredicts(PagePara(page), c, ram);
    assert PagePara(page).(preview := false) == PagePara(page);
    StartMoves(PagePara(page), c, ram);
    forall i | 0 <= i < FLASH_SIZE
      ensures c'.flash[i] == Overlay(c.flash, page - FLASH_BASE, buf)[i]
    {
      var a := i + FLASH_BASE;
      if page <= a < page + FLASH_PAGE_SIZE {
        assert Peek(c'.flash, ram, a) == Peek(c.flash, ram, a + (FLASH_BUF - page));
        RamHoldsBuffer(buf, a - page);
      }
    }
  }

  /** A flush changes at most the cached page, under any hardware behaviour. */
  lemma FlushConfined(s: Cache)
    requires Inv(s)
    ensures s.addr == NO_CACHE ==> Flush(s).chip == s.chip
    ensures s.addr != NO_CACHE ==> Confined(s.chip, Flush(s).chip, s.addr, s.addr + FLASH_PAGE_SIZE)
  {
    hide Confined;
    if s.addr != NO_CACHE {
      ProgramPageConfined(s.chip, s.addr, s.buf);
      ConfinedSelf(s.chip, s.addr, s.addr + FLASH_PAGE_SIZE);
    }
  }

  /** A flush never changes the view, and after it flash equals the view. */
  lemma FlushKeepsView(s: Cache)
    requires Inv(s) && Healthy(s.chip)
    ensures Healthy(Flush(s).chip) && Flush(s).chip.flash == View(s) == View(Flush(s))
  {
    hide ProgramPage;
    if s.addr != NO_CACHE {
      ProgramPageStores(s.chip, s.addr, s.buf);
      if s.buf == PageAt(s.chip.flash, s.addr) {
        assert Overlay(s.chip.flash, s.addr - FLASH_BASE, s.buf) == s.chip.flash;
      }
    }
  }

  /** What one tick does, on any hardware: nothing but move the clock, unless the reset is due or more than 100 ms have
      passed since the last flush; then the cached page is written back. */
  lemma TickEffect(s: Cache)
    requires Inv(s)
    ensures
      var r := Tick(s);
      var now := (s.ms + 1) % 0x1_0000_0000;
      var reset := s.resetTime != 0 && now >= s.resetTime;
      var flush := s.lastFlush != 0 && (now - s.lastFlush) % 0x1_0000_0000 > 100;
      && r.restarted == (s.restarted || reset)
      && (if reset || flush then r == Flush(s.(ms := now)).(restarted := r.restarted) && r.lastFlush == now
          else r == s.(ms := now))
  {
    hide FlushedChip;
  }

  /** A page that was not changed is not written back: the controller is left alone. */
  lemma CleanNotWritten(s: Cache)
    requires PageInFlash(s.addr) && s.buf == s.chip.flash[s.addr - FLASH_BASE..s.addr - FLASH_BASE + FLASH_PAGE_SIZE]
    ensures Flush(s).chip == s.chip && Flush(s).addr == NO_CACHE
  {
  }

  /** What flash_write refuses, on the sums of its check: nothing changes. */
  lemma WriteRefused(s: Cache, dst: int, src: Source, count: int)
    requires Inv(s) && 0 <= dst && dst + count < 0x1_0000_0000
      && (src.Rom? ==> 0 <= src.at && src.at + count < 0x1_0000_0000)
    requires (src.Packet? ==> count <= |src.data|) && OneOrAligned(dst, count)
    requires
      || dst < 0x0800_0000 || dst + count >= 0x0801_0000
      || (src.Rom? && (src.at < 0x0800_0000 || src.at + count >= 0x0801_0000))
    ensures FlashWrite(s, dst, src, count) == s
  {
    hide WriteLoop;
    if count > 0 {
      assert Wrap(dst + count) == dst + count;
      assert src.Rom? ==> Wrap(src.at + count) == src.at + count;
    }
  }

  // ---------- writing ----------

  /** The source is a buffer, or lies below everything the write touches. */
  predicate Undisturbed(s: Cache, dst: int, src: Source, count: int) {
    src.Rom? ==> src.at + count <= PageAddress(dst) && src.at + count <= s.addr
  }

  lemma SwitchKeepsView(s: Cache, page: int)
    requires Inv(s) && Healthy(s.chip) && PageInFlash(page)
    ensures
      var t := if page != s.addr then Load(Flush(s), page) else s;
      Healthy(t.chip) && t.addr == page && View(t) == View(s)
  {
    hide FlushedChip;
    if page != s.addr {
      FlushKeepsView(s);
      var f := Flush(s).chip.flash;
      assert Overlay(f, page - FLASH_BASE, PageAt(f, page)) == f;
    }
  }

  lemma SwitchKeepsSource(s: Cache, page: int, src: Source, count: nat)
    requires Inv(s) && PageInFlash(page) && Supplies(src, count) && (src.Rom? ==> src.at + count <= s.addr)
    ensures
      var t := if page != s.addr then Load(Flush(s), page) else s;
      Bytes(src, t.chip.flash, count) == Bytes(src, s.chip.flash, count)
  {
    hide FlushedChip, Confined;
    if page != s.addr {
      FlushConfined(s);
      if s.addr != NO_CACHE {
        ConfinedImage(s.chip, Flush(s).chip, s.addr, s.addr + FLASH_PAGE_SIZE);
        if src.Rom? {
          var f, g, i := Flush(s).chip.flash, s.chip.flash, src.at - FLASH_BASE;
          assert f[i..i + count] == g[i..i + count];
        }
      }
    }
  }

  lemma ChunkPlace(dst: int, src: Source, len: nat)
    requires InBounds(dst, src, len) && 0 < len
    ensures
      var page := PageAddress(dst);
      && PageInFlash(page) && page - FLASH_BASE + dst % FLASH_PAGE_SIZE == dst - FLASH_BASE && 0 <= page - FLASH_BASE
      && Supplies(src, len)
  {
  }

  lemma PageSize(p: Page)
    ensures |p| == FLASH_PAGE_SIZE
  {
  }

  lemma ChunkView(s: Cache, dst: int, src: Source, len: nat)
    requires Inv(s) && 0 < len <= FLASH_PAGE_SIZE && InBounds(dst, src, len)
      && dst % FLASH_PAGE_SIZE + len <= FLASH_PAGE_SIZE
    requires Healthy(s.chip) && Undisturbed(s, dst, src, len)
    ensures Healthy(WriteChunk(s, dst, src, len).chip)
    ensures View(WriteChunk(s, dst, src, len)) == Overlay(View(s), dst - FLASH_BASE, Bytes(src, s.chip.flash, len))
  {
    hide FlushedChip, Overlay, Bytes, PageAddress, Load, InBounds, PageInFlash;
    var page := PageAddress(dst);
    ChunkPlace(dst, src, len);
    SwitchKeepsView(s, page);
    SwitchKeepsSource(s, page, src, len);
    var t := if page != s.addr then Load(Flush(s), page) else s;
    PageSize(t.buf);
    OverlayInside(t.chip.flash, page - FLASH_BASE, t.buf, dst % FLASH_PAGE_SIZE, Bytes(src, t.chip.flash, len));
  }

  lemma BytesSplit(src: Source, flash: Image, len: nat, count: nat)
    requires len <= count && Supplies(src, count)
    ensures Bytes(src, flash, len) + Bytes(Advance(src, len), flash, count - len) == Bytes(src, flash, count)
  {
    match src
    case Packet(data) => assert data[..len] + data[len..][..count - len] == data[..count];
    case Rom(at) =>
      var i := at - FLASH_BASE;
      assert flash[i..i + len] + flash[i + len..i + count] == flash[i..i + count];
  }

  lemma ChunkFits(dst: int, src: Source, count: int)
    requires InBounds(dst, src, count) && count > 0
    ensures
      var len := ChunkLength(count);
      && InBounds(dst, src, len) && dst % FLASH_PAGE_SIZE + len <= FLASH_PAGE_SIZE
      && InBounds(dst + len, Advance(src, len), count - len)
      && Supplies(src, len) && Supplies(src, count) && Supplies(Advance(src, len), count - len)
      && FLASH_BASE <= dst && dst + count < FLASH_END
  {
  }

  /** A write changes the view exactly as writing the bytes directly would. */
  lemma {:induction false} WriteLoopView(s: Cache, dst: int, src: Source, count: int)
    requires Inv(s) && InBounds(dst, src, count) && Healthy(s.chip) && Undisturbed(s, dst, src, count)
    ensures Healthy(WriteLoop(s, dst, src, count).chip)
    ensures View(WriteLoop(s, dst, src, count)) ==
      if count <= 0 then View(s) else Overlay(View(s), dst - FLASH_BASE, Bytes(src, s.chip.flash, count))
    decreases count
  {
    hide View, WriteChunk, InBounds, Bytes, Supplies, PageAddress, Overlay, Undisturbed;
    if count > 0 {
      var len := ChunkLength(count);
      ChunkFits(dst, src, count);
      ChunkSource(s, dst, src, len, count);
      ChunkView(s, dst, src, len);
      var t := WriteChunk(s, dst, src, len);
      WriteLoopView(t, dst + len, Advance(src, len), count - len);
      BytesSplit(src, s.chip.flash, len, count);
      if count > len {
        OverlayTwice(View(s), dst - FLASH_BASE, Bytes(src, s.chip.flash, len),
            Bytes(Advance(src, len), s.chip.flash, count - len));
      }
    }
  }

  /** The rest of the source is the same after a chunk, and still undisturbed. */
  lemma ChunkSource(s: Cache, dst: int, src: Source, len: nat, count: int)
    requires Inv(s) && InBounds(dst, src, count) && count > 0 && len == ChunkLength(count)
    requires InBounds(dst, src, len) && dst % FLASH_PAGE_SIZE + len <= FLASH_PAGE_SIZE
      && Undisturbed(s, dst, src, count)
    ensures Undisturbed(s, dst, src, len)
    ensures
      var t := WriteChunk(s, dst, src, len);
      && Undisturbed(t, dst + len, Advance(src, len), count - len)
      && Supplies(Advance(src, len), count - len)
      && Bytes(Advance(src, len), t.chip.flash, count - len) == Bytes(Advance(src, len), s.chip.flash, count - len)
  {
    hide FlushedChip;
    SwitchKeepsSource(s, PageAddress(dst), Advance(src, len), count - len);
  }

  // ---------- safety under faults ----------

  predicate SameBelow(f: Image, g: Image, lo: int) {
    forall i :: 0 <= i < FLASH_SIZE && i < lo - FLASH_BASE ==> f[i] == g[i]
  }

  /** Flushing and writing at or above `lo` leaves flash below `lo` alone, whatever the hardware does. */
  lemma FlushAbove(s: Cache, lo: int)
    requires Inv(s) && lo <= s.addr
    ensures SameBelow(Flush(s).chip.flash, s.chip.flash, lo)
  {
    hide FlushedChip, Confined;
    FlushConfined(s);
    if s.addr != NO_CACHE {
      ConfinedImage(s.chip, Flush(s).chip, s.addr, s.addr + FLASH_PAGE_SIZE);
    }
  }

  lemma ChunkAbove(s: Cache, dst: int, src: Source, len: nat, lo: int)
    requires Inv(s) && 0 < len <= FLASH_PAGE_SIZE && InBounds(dst, src, len)
      && dst % FLASH_PAGE_SIZE + len <= FLASH_PAGE_SIZE
    requires lo <= s.addr && lo <= dst && lo % FLASH_PAGE_SIZE == 0
    ensures SameBelow(WriteChunk(s, dst, src, len).chip.flash, s.chip.flash, lo)
    ensures lo <= WriteChunk(s, dst, src, len).addr
  {
    hide FlushedChip;
    FlushAbove(s, lo);
  }

  lemma {:induction false} WriteLoopAbove(s: Cache, dst: int, src: Source, count: int, lo: int)
    requires Inv(s) && InBounds(dst, src, count)
    requires lo <= s.addr && lo <= dst && lo % FLASH_PAGE_SIZE == 0
    ensures SameBelow(WriteLoop(s, dst, src, count).chip.flash, s.chip.flash, lo)
    ensures lo <= WriteLoop(s, dst, src, count).addr
    decreases count
  {
    hide WriteChunk, InBounds;
    if count > 0 {
      var len := ChunkLength(count);
      ChunkFits(dst, src, count);
      ChunkAbove(s, dst, src, len, lo);
      WriteLoopAbove(WriteChunk(s, dst, src, len), dst + len, Advance(src, len), count - len, lo);
    }
  }

  // ---------- whole runs ----------

  datatype Op = WriteOp(dst: Word, data: seq<Byte>) | FlushOp | TickOp

  /** The writes the cache is built for: aligned or within one page, and not long enough to wrap the bounds check. */
  predicate Proper(op: Op) {
    op.WriteOp? ==> op.dst + |op.data| < 0x1_0000_0000 && OneOrAligned(op.dst, |op.data|)
  }

  function Step(s: Cache, op: Op): (r: Cache)
    requires Inv(s) && Proper(op)
    ensures Inv(r)
  {
    match op
    case WriteOp(dst, data) => FlashWrite(s, dst, Packet(data), |data|)
    case FlushOp => Flush(s)
    case TickOp => Tick(s)
  }

  /** Runs until the operations, or the device's patience, are exhausted. */
  function Run(s: Cache, ops: seq<Op>): (r: Cache)
    requires Inv(s) && forall op :: op in ops ==> Proper(op)
    ensures Inv(r)
    decreases |ops|
  {
    if ops == [] || s.restarted then s else Run(Step(s, ops[0]), ops[1..])
  }

  /** How many operations ran before a restart, if any. */
  function Executed(s: Cache, ops: seq<Op>): (n: nat)
    requires Inv(s) && forall op :: op in ops ==> Proper(op)
    ensures n <= |ops|
    decreases |ops|
  {
    if ops == [] || s.restarted then 0 else 1 + Executed(Step(s, ops[0]), ops[1..])
  }

  /** What the operation means for memory without a cache: a write that passes the bounds check stores its bytes. */
  function Direct(v: Image, op: Op): Image
    requires Proper(op)
  {
    if op.WriteOp? && |op.data| > 0 && op.dst >= FLASH_BASE && op.dst + |op.data| < FLASH_END
    then Overlay(v, op.dst - FLASH_BASE, op.data)
    else v
  }

  function DirectRun(v: Image, ops: seq<Op>): Image
    requires forall op :: op in ops ==> Proper(op)
    decreases |ops|
  {
    if ops == [] then v else DirectRun(Direct(v, ops[0]), ops[1..])
  }

  lemma StepView(s: Cache, op: Op)
    requires Inv(s) && Proper(op) && Healthy(s.chip)
    ensures Healthy(Step(s, op).chip) && View(Step(s, op)) == Direct(View(s), op)
  {
    hide FlushedChip, WriteLoop;
    match op
    case WriteOp(dst, data) =>
      if |data| > 0 && ValidWrite(dst, Packet(data), |data|) {
        WriteLoopView(s, dst, Packet(data), |data|);
        assert data[..|data|] == data;
      }
    case FlushOp => FlushKeepsView(s);
    case TickOp => FlushKeepsView(s.(ms := Wrap(s.ms + 1)));
  }

  /** The cache refines plain memory: over any run of writes, flushes and timer ticks the view changes exactly as
      direct byte writes would change it. */
  lemma {:induction false} RunView(s: Cache, ops: seq<Op>)
    requires Inv(s) && Healthy(s.chip) && forall op :: op in ops ==> Proper(op)
    ensures Healthy(Run(s, ops).chip)
    ensures View(Run(s, ops)) == DirectRun(View(s), ops[..Executed(s, ops)])
    decreases |ops|
  {
    if ops != [] && !s.restarted {
      hide Step, Direct, View;
      var t := Step(s, ops[0]);
      StepView(s, ops[0]);
      RunView(t, ops[1..]);
      var n := Executed(t, ops[1..]);
      assert ops[..n + 1][1..] == ops[1..][..n];
      assert ops[..n + 1][0] == ops[0];
    }
  }

  /** Flushed at the end, flash itself holds what the direct writes would have left. */
  lemma RunThenFlush(s: Cache, ops: seq<Op>)
    requires Inv(s) && Healthy(s.chip) && forall op :: op in ops ==> Proper(op)
    ensures Flush(Run(s, ops)).chip.flash == DirectRun(View(s), ops[..Executed(s, ops)])
  {
    hide FlushedChip;
    RunView(s, ops);
    FlushKeepsView(Run(s, ops));
  }

  /** With no reset timer armed nothing is cut short: every operation is executed. */
  lemma {:induction false} NoTimerNoRestart(s: Cache, ops: seq<Op>)
    requires Inv(s) && s.resetTime == 0 && !s.restarted && forall op :: op in ops ==> Proper(op)
    ensures Executed(s, ops) == |ops| && Run(s, ops).resetTime == 0 && !Run(s, ops).restarted
    decreases |ops|
  {
    if ops != [] {
      hide FlushedChip, WriteLoop;
      StepKeepsTimer(s, ops[0]);
      NoTimerNoRestart(Step(s, ops[0]), ops[1..]);
    }
  }

  lemma StepKeepsTimer(s: Cache, op: Op)
    requires Inv(s) && s.resetTime == 0 && !s.restarted && Proper(op)
    ensures Step(s, op).resetTime == 0 && !Step(s, op).restarted
  {
    hide FlushedChip;
    if op.WriteOp? && |op.data| > 0 && ValidWrite(op.dst, Packet(op.data), |op.data|) {
      WriteLoopTimers(s, op.dst, Packet(op.data), |op.data|);
    }
  }

  /** The next tick finds the reset timer armed and run out. */
  predicate Due(s: Cache) {
    s.resetTime != 0 && Wrap(s.ms + 1) >= s.resetTime
  }

  /** Operation `n` is a tick that comes with the reset due, on a device that has not restarted before. */
  predicate DueAt(s: Cache, ops: seq<Op>, n: nat)
    requires Inv(s) && n < |ops| && forall op :: op in ops ==> Proper(op)
  {
    var p := Run(s, ops[..n]);
    ops[n].TickOp? && !p.restarted && Due(p)
  }

  lemma StepRestarts(s: Cache, op: Op)
    requires Inv(s) && !s.restarted && Proper(op)
    ensures Step(s, op).restarted <==> op.TickOp? && Due(s)
  {
    hide FlushedChip, WriteLoop;
    if op.WriteOp? && |op.data| > 0 && ValidWrite(op.dst, Packet(op.data), |op.data|) {
      WriteLoopTimers(s, op.dst, Packet(op.data), |op.data|);
    }
  }

  /** A run restarts the device exactly if some tick finds the reset due: no write and no write-back ever does,
      whatever the hardware. */
  lemma {:induction false} RestartIffDue(s: Cache, ops: seq<Op>)
    requires Inv(s) && !s.restarted && forall op :: op in ops ==> Proper(op)
    ensures Run(s, ops).restarted <==> exists n: nat :: n < |ops| && DueAt(s, ops, n)
    decreases |ops|
  {
    hide Step, DueAt, Due;
    if ops != [] {
      var t := Step(s, ops[0]);
      StepRestarts(s, ops[0]);
      FirstDue(s, ops);
      if t.restarted {
        assert Run(t, ops[1..]) == t;
      } else {
        RestartIffDue(t, ops[1..]);
        forall n: nat | n < |ops| - 1
          ensures DueAt(s, ops, n + 1) == DueAt(t, ops[1..], n)
        {
          LaterDue(s, ops, n);
        }
        if exists n: nat :: n < |ops| && DueAt(s, ops, n) {
          var n: nat :| n < |ops| && DueAt(s, ops, n);
          assert n > 0 && DueAt(t, ops[1..], n - 1);
        }
      }
    }
  }

  lemma FirstDue(s: Cache, ops: seq<Op>)
    requires Inv(s) && !s.restarted && ops != [] && forall op :: op in ops ==> Proper(op)
    ensures DueAt(s, ops, 0) <==> ops[0].TickOp? && Due(s)
  {
    assert Run(s, ops[..0]) == s;
  }

  lemma LaterDue(s: Cache, ops: seq<Op>, n: nat)
    requires Inv(s) && !s.restarted && n + 1 < |ops| && forall op :: op in ops ==> Proper(op)
    ensures DueAt(s, ops, n + 1) == DueAt(Step(s, ops[0]), ops[1..], n)
  {
    hide Step;
    assert ops[..n + 1][1..] == ops[1..][..n] && ops[..n + 1][0] == ops[0];
  }

  lemma {:induction false} WriteLoopTimers(s: Cache, dst: int, src: Source, count: int)
    requires Inv(s) && InBounds(dst, src, count)
    ensures
      var t := WriteLoop(s, dst, src, count);
      t.resetTime == s.resetTime && t.restarted == s.restarted && t.ms == s.ms
    decreases count
  {
    hide FlushedChip, InBounds, Overlay, Bytes, PageAt, PageAddress;
    if count > 0 {
      var len := ChunkLength(count);
      ChunkFits(dst, src, count);
      WriteLoopTimers(WriteChunk(s, dst, src, len), dst + len, Advance(src, len), count - len);
    }
  }

  /** The boundary of the strict bound: a 256-byte block ending at the end of flash is never written. */
  lemma LastBlockNeverWritten(s: Cache, data: seq<Byte>)
    requires Inv(s) && |data| == 256
    ensures FlashWrite(s, FLASH_END - 256, Packet(data), 256) == s
  {
  }

  // ---------- the mutable module ----------

  lemma OverlayNone(s: seq<Byte>, at: nat, data: seq<Byte>)
    requires at + |data| <= |s|
    ensures Overlay(s, at, data[..0]) == s
  {
  }

  lemma OverlayOneMore(s: seq<Byte>, at: nat, data: seq<Byte>, k: nat)
    requires at + |data| <= |s| && k < |data|
    ensures Overlay(s, at, data[..k + 1]) == Overlay(s, at, data[..k])[at + k := data[k]]
  {
  }

  lemma ByteOf(src: Source, flash: Image, len: nat, k: nat)
    requires Supplies(src, len) && k < len
    ensures Bytes(src, flash, len)[k] ==
      match src case Packet(data) => data[k] case Rom(at) => flash[at - FLASH_BASE + k]
  {
  }

  lemma WriteLoopNext(s: Cache, dst: int, src: Source, count: int)
    requires Inv(s) && InBounds(dst, src, count) && count > 0
    ensures
      var len := ChunkLength(count);
      && 0 < len <= FLASH_PAGE_SIZE && InBounds(dst, src, len) && Supplies(src, len) && PageAddress(dst) != NO_CACHE
      && dst % FLASH_PAGE_SIZE + len <= FLASH_PAGE_SIZE
      && InBounds(dst + len, Advance(src, len), count - len) && PageInFlash(PageAddress(dst))
      && WriteLoop(s, dst, src, count) ==
          WriteLoop(WriteChunk(s, dst, src, len), dst + len, Advance(src, len), count - len)
  {
    hide WriteChunk, InBounds, PageAddress, Advance, OneOrAligned;
    ChunkFits(dst, src, count);
    ChunkPage(dst, src, count);
  }

  lemma ChunkPage(dst: int, src: Source, count: int)
    requires InBounds(dst, src, count) && count > 0
    ensures PageInFlash(PageAddress(dst))
  {
  }

  lemma WriteLoopDone(s: Cache, dst: int, src: Source, count: int)
    requires Inv(s) && InBounds(dst, src, count) && count <= 0
    ensures WriteLoop(s, dst, src, count) == s
  {
  }

  lemma AcceptedInBounds(dst: int, src: Source, count: int)
    requires 0 <= dst && dst + count < 0x1_0000_0000 && (src.Rom? ==> 0 <= src.at && src.at + count < 0x1_0000_0000)
    requires (src.Packet? ==> count <= |src.data|) && OneOrAligned(dst, count) && ValidWrite(dst, src, count)
      && count > 0
    ensures InBounds(dst, src, count)
  {
  }

  class FlashCache {
    const loader: Copier
    const flashBuf: array<Byte>
    var flashAddr: int
    var ms: Word
    var resetTime: Word
    var lastFlush: Word
    var restarted: bool

    ghost function Repr(): set<object> {
      {this, flashBuf, loader, loader.chip, loader.chip.cells}
    }

    ghost predicate Valid()
      reads Repr()
    {
      loader.Valid() && flashBuf.Length == FLASH_PAGE_SIZE && flashBuf != loader.chip.cells &&
      (flashAddr == NO_CACHE || PageInFlash(flashAddr))
    }

    ghost function Value(): (s: Cache)
      requires Valid()
      reads Repr()
      ensures Inv(s)
    {
      Cache(loader.chip.Value(), flashAddr, flashBuf[..], ms, resetTime, lastFlush, restarted)
    }

    constructor (loader: Copier, flashBuf: array<Byte>)
      requires loader.Valid() && flashBuf.Length == FLASH_PAGE_SIZE && flashBuf != loader.chip.cells
      ensures this.loader == loader && this.flashBuf == flashBuf
      ensures Valid() && Value() == Cache(loader.chip.Value(), NO_CACHE, flashBuf[..], 0, 0, 0, false)
    {
      this.loader := loader;
      this.flashBuf := flashBuf;
      flashAddr, ms, resetTime, lastFlush, restarted := NO_CACHE, 0, 0, 0, false;
    }

    method FlashFlush()
      requires Valid()
      modifies Repr()
      ensures Valid() && Value() == Flush(old(Value())) && restarted == old(restarted)
    {
      hide Start;
      lastFlush := ms;
      if flashAddr == NO_CACHE { return; }
      var base := flashAddr - FLASH_BASE;
      if flashBuf[..] != loader.chip.cells[base..base + FLASH_PAGE_SIZE] {
        loader.para := PagePara(flashAddr);
        var reset := loader.BaseloaderStart(RamWith(flashBuf[..]));
        restarted := restarted || reset;
      }
      flashAddr := NO_CACHE;
    }

    method SwitchTo(page: int)
      requires Valid() && PageInFlash(page)
      modifies Repr()
      ensures Valid() && Value() == var s := old(Value()); if page != s.addr then Load(Flush(s), page) else s
    {
      hide FlushedChip;
      if page != flashAddr {
        FlashFlush();
        flashAddr := page;
        forall i | 0 <= i < FLASH_PAGE_SIZE { flashBuf[i] := loader.chip.cells[page - FLASH_BASE + i]; }
        assert flashBuf[..] == PageAt(loader.chip.Value().flash, page);
      }
    }

    method CopyIn(dst: int, src: Source, len: nat)
      requires Valid() && flashAddr == PageAddress(dst) && flashAddr != NO_CACHE
      requires Supplies(src, len) && dst % FLASH_PAGE_SIZE + len <= FLASH_PAGE_SIZE
      modifies flashBuf
      ensures Valid()
      ensures Value() == var t := old(Value());
        t.(buf := Overlay(t.buf, dst % FLASH_PAGE_SIZE, Bytes(src, t.chip.flash, len)))
    {
      hide Overlay, Bytes;
      var offset := dst % FLASH_PAGE_SIZE;
      ghost var was: Page, flash := flashBuf[..], loader.chip.Value().flash;
      OverlayNone(was, offset, Bytes(src, flash, len));
      for k := 0 to len
        invariant flashBuf[..] == Overlay(was, offset, Bytes(src, flash, len)[..k])
        invariant loader.chip.Value() == old(loader.chip.Value())
      {
        OverlayOneMore(was, offset, Bytes(src, flash, len), k);
        ByteOf(src, flash, len, k);
        flashBuf[offset + k] := match src
          case Packet(data) => data[k]
          case Rom(at) => loader.chip.cells[at - FLASH_BASE + k];
      }
      assert Bytes(src, flash, len)[..len] == Bytes(src, flash, len);
    }

    method WriteToFlash(dst0: int, src0: Source, count0: int)
      requires Valid() && 0 <= dst0 && dst0 + count0 < 0x1_0000_0000
      requires src0.Rom? ==> 0 <= src0.at && src0.at + count0 < 0x1_0000_0000
      requires (src0.Packet? ==> count0 <= |src0.data|) && OneOrAligned(dst0, count0)
      modifies Repr()
      ensures Valid() && Value() == FlashWrite(old(Value()), dst0, src0, count0)
    {
      hide FlushedChip, Overlay, InBounds, OneOrAligned, WriteLoop, ValidWrite, Advance, PageAddress;
      if !ValidWrite(dst0, src0, count0) || count0 <= 0 { return; }
      AcceptedInBounds(dst0, src0, count0);
      var dst, src, count := dst0, src0, count0;
      while count > 0
        invariant Valid() && InBounds(dst, src, count)
        invariant WriteLoop(Value(), dst, src, count) == WriteLoop(old(Value()), dst0, src0, count0)
        decreases count
      {
        var len := ChunkLength(count);
        WriteLoopNext(Value(), dst, src, count);
        SwitchTo(PageAddress(dst));
        CopyIn(dst, src, len);
        dst, src, count := dst + len, Advance(src, len), count - len;
      }
      WriteLoopDone(Value(), dst, src, count);
    }

    method TickMs()
      requires Valid()
      modifies Repr()
      ensures Valid() && Value() == Tick(old(Value()))
    {
      hide FlushedChip;
      ms := Wrap(ms + 1);
      if resetTime != 0 && ms >= resetTime {
        FlashFlush();
        restarted := true;
        return;
      }
      if lastFlush != 0 && Wrap(ms - lastFlush) > 100 {
        FlashFlush();
      }
    }
  }
}
