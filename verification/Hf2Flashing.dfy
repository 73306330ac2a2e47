// hf2.c: flashing pages sent by the host, with the new bootloader staged above the old application start.

module Hf2Flashing {
  import opened Platform
  import opened FlashHardware
  import opened Baseloader
  import opened PageCache

  const HF2_PAGE_SIZE := 256
  const BASE_MAGIC_NUMBER := 0x2205_1969
  const BASE_MAGIC_NUMBER2 := 0x1969_0522
  const TABLE_SIZE := 24

  /** What the running bootloader was linked with: the application start address (where the bootloader ends), the end
      of its baseloader, and the offset of the base vector table from the start of its page. */
  datatype Firmware = Firmware(app: int, baseEnd: int, vt: nat)

  /** The linker script puts the application on a page boundary; the bootloader and the application have at least two
      pages each, and the table lies in one 256-byte block of page 0. */
  predicate Linked(fw: Firmware) {
    && FLASH_BASE + 2 * FLASH_PAGE_SIZE <= fw.app && fw.app + 2 * FLASH_PAGE_SIZE <= FLASH_END
    && fw.app % FLASH_PAGE_SIZE == 0
    && fw.vt + TABLE_SIZE <= FLASH_PAGE_SIZE && fw.vt % HF2_PAGE_SIZE + TABLE_SIZE <= HF2_PAGE_SIZE
    && FLASH_BASE <= fw.baseEnd <= fw.app
  }

  /** base_vector_table_t, as far as it is read: 24 bytes with magic numbers at both ends. */
  datatype BaseTable = BaseTable(magic: Word, baseloader: Word, baseEnd: Word, application: Word, magic2: Word)

  function TableIn(bytes: seq<Byte>): BaseTable
    requires |bytes| == TABLE_SIZE
  {
    BaseTable(WordAt(bytes, 0), WordAt(bytes, 8), WordAt(bytes, 12), WordAt(bytes, 16), WordAt(bytes, 20))
  }

  predicate ValidTable(t: BaseTable) {
    t.magic == BASE_MAGIC_NUMBER && t.magic2 == BASE_MAGIC_NUMBER2
  }

  /** The table byte for byte: valid if it begins and ends with the two magic words; the copier's entry, its end and the
      application start are the third to fifth word. */
  lemma TableLayout(w: seq<Byte>)
    requires |w| == 24
    ensures ValidTable(TableIn(w)) <==> w[0..4] == [0x69, 0x19, 0x05, 0x22] && w[20..24] == [0x22, 0x05, 0x69, 0x19]
    ensures TableIn(w).baseloader == WordAt(w, 8) && TableIn(w).baseEnd == WordAt(w, 12)
    ensures TableIn(w).application == WordAt(w, 16)
  {
    WordIs(w, 0, [0x69, 0x19, 0x05, 0x22]);
    WordIs(w, 20, [0x22, 0x05, 0x69, 0x19]);
  }

  /** The bytes BASE_VECTOR_TABLE(page) points at. */
  function Window(flash: Image, page: int, vt: nat): (w: seq<Byte>)
    requires PageInFlash(page) && vt + TABLE_SIZE <= FLASH_PAGE_SIZE
    ensures |w| == TABLE_SIZE
  {
    flash[page - FLASH_BASE + vt..page - FLASH_BASE + vt + TABLE_SIZE]
  }

  /** The static variables of handle_flash_write and bootloader_changed; `found` is new_base_vector != NULL. */
  datatype Session = Session(cache: Cache, found: bool, newApp: Word, newBootSize: Word, newBaseSize: Word,
      changed: bool)

  /** new_app_start is always a page address. */
  predicate Ok(s: Session) {
    Inv(s.cache) && s.newApp % FLASH_PAGE_SIZE == 0
  }

  /** VALID_FLASH_ADDR, with 32-bit wrap-around. */
  predicate ValidFlashAddr(a: int) {
    FLASH_BASE <= a && Wrap(a + HF2_PAGE_SIZE) <= FLASH_END
  }

  /** A page the device advertises: 256 pages of 256 bytes from the start of flash. */
  predicate Advertised(target: int) {
    InFlash(target) && target % HF2_PAGE_SIZE == 0
  }

  /** A byte of flash as memcmp sees it. */
  function FlashByte(flash: Image, a: int): Byte {
    if InFlash(a) then flash[a - FLASH_BASE] else OPEN_BUS
  }

  /** memcmp of the staged bootloader with the running one. */
  predicate Differs(flash: Image, staged: int, size: int) {
    exists a ::
      FLASH_BASE <= a < FLASH_BASE + size && FlashByte(flash, a) != FlashByte(flash, a + (staged - FLASH_BASE))
  }

  /** A size passed as C's int. */
  function ToInt(w: Word): int {
    if w < 0x8000_0000 then w else w - 0x1_0000_0000
  }

  /** handle_bootloader_update: cache afterwards, and whether the bootloader is to be updated. */
  function BootloaderUpdate(fw: Firmware, s: Cache, bootSize: Word, baseSize: Word, target: int): (r: (Cache, bool))
    requires Inv(s) && Linked(fw) && InFlash(target) && target % FLASH_PAGE_SIZE == 0
    ensures Inv(r.0)
  {
    if !Differs(s.chip.flash, fw.app, bootSize) then (s, false)
    else (Flush(FlashWrite(s, target + (fw.app - FLASH_BASE), Rom(fw.app), ToInt(baseSize))), true)
  }

  lemma PageAligned(a: int)
    ensures PageAddress(a) % FLASH_PAGE_SIZE == 0 && PageAddress(a) <= a < PageAddress(a) + FLASH_PAGE_SIZE
    ensures a >= 0 ==> PageAddress(a) >= 0
  {
  }

  /** First part of handle_flash_write: (re)initialise, then look for the staged base vector table. */
  function Recognise(fw: Firmware, s: Session, target: int): (r: Session)
    requires Linked(fw) && Ok(s)
    ensures Ok(r) && r.cache == s.cache
  {
    var s1 := if s.newApp == 0 || target == FLASH_BASE
      then Session(s.cache, false, PageAddress(fw.app), Wrap(fw.app - FLASH_BASE), Wrap(fw.baseEnd - FLASH_BASE), false)
      else s;
    var t := TableIn(Window(s.cache.chip.flash, fw.app, fw.vt));
    if !s1.found && ValidTable(t) then
      var app := PageAddress(t.application);
      PageAligned(t.application);
      s1.(found := true, newApp := app, newBootSize := Wrap(app - FLASH_BASE),
          newBaseSize := Wrap(t.baseEnd - FLASH_BASE))
    else s1
  }

  /** A block that lies in one flash page, unless the check refuses it anyway. */
  predicate BlockFits(dst: int) {
    ValidFlashAddr(dst) ==> dst + HF2_PAGE_SIZE < 0x1_0000_0000 && OneOrAligned(dst, HF2_PAGE_SIZE)
  }

  /** A page for the flash base begins a session anew: what is known of the bootloader is what it was linked with, until
      a table is found at its end. */
  lemma SessionStarts(fw: Firmware, s: Session)
    requires Linked(fw) && Ok(s)
    ensures
      var r := Recognise(fw, s, 0x0800_0000);
      var t := TableIn(Window(s.cache.chip.flash, fw.app, fw.vt));
      && !r.changed && r.found == ValidTable(t)
      && r.newApp == (if r.found then PageAddress(t.application) else fw.app)
      && r.newBootSize == Wrap(r.newApp - FLASH_BASE)
      && r.newBaseSize == (if r.found then Wrap(t.baseEnd - FLASH_BASE) else fw.baseEnd - FLASH_BASE)
  {
    hide Window, TableIn;
    PageAligned(fw.app);
    assert PageAddress(fw.app) == fw.app;
  }

  /** flash_write of one block from the packet buffer, if the address is valid. */
  function WriteBlock(s: Cache, dst: int, data: seq<Byte>): (r: Cache)
    requires Inv(s) && |data| == HF2_PAGE_SIZE && 0 <= dst
    requires (dst < 0x8000_0000 && dst % HF2_PAGE_SIZE == 0) || BlockFits(dst)
    ensures Inv(r)
  {
    if ValidFlashAddr(dst) then
      OneBlock(dst);
      FlashWrite(s, dst, Packet(data), HF2_PAGE_SIZE)
    else s
  }

  /** Where a bootloader page is staged. */
  function Staged(fw: Firmware, target: int): (a: int)
    requires Linked(fw) && Advertised(target)
    ensures a == target + (fw.app - FLASH_BASE) && a % HF2_PAGE_SIZE == 0
  {
    MultipleSum(target, fw.app - FLASH_BASE);
    target + (fw.app - FLASH_BASE)
  }

  lemma MultipleSum(a: int, b: int)
    requires a % HF2_PAGE_SIZE == 0 && b % HF2_PAGE_SIZE == 0
    ensures (a + b) % HF2_PAGE_SIZE == 0
  {
  }

  /** Where a block sent for `target` goes: below the new application start, all targets are shifted. */
  function Destination(fw: Firmware, newApp: Word, target: int): (a: Word)
    requires Linked(fw) && 0 <= target < 0x1_0000_0000
    ensures Advertised(target) && target < newApp ==> a == Staged(fw, target)
  {
    if target < newApp then Wrap(target + (fw.app - FLASH_BASE)) else target
  }

  /** Any 32-bit target, as long as the block stays in the page buffer and the bootloaders compared lie in flash. */
  predicate Handled(fw: Firmware, s: Session, target: int)
    requires Linked(fw) && Ok(s)
  {
    var s1 := Recognise(fw, s, target);
    0 <= target < 0x1_0000_0000 && (
      s1.changed || if s1.found && target == s1.newApp then InFlash(target)
                    else BlockFits(Destination(fw, s1.newApp, target)))
  }

  /** handle_flash_write. */
  function HandleFlashWrite(fw: Firmware, s: Session, target: int, data: seq<Byte>): (r: Session)
    requires Linked(fw) && Ok(s) && |data| == HF2_PAGE_SIZE && (Advertised(target) || Handled(fw, s, target))
    ensures Ok(r)
  {
    var s1 := Recognise(fw, s, target);
    if target < s1.newApp then
      if s1.changed then s1
      else s1.(cache := WriteBlock(s1.cache, Destination(fw, s1.newApp, target), data))
    else if s1.found && target == s1.newApp && !s1.changed then
      var (c, changed) := BootloaderUpdate(fw, Flush(s1.cache), s1.newBootSize, s1.newBaseSize, target);
      s1.(cache := if changed then c else WriteBlock(c, target, data), changed := changed)
    else if s1.changed then s1
    else s1.(cache := WriteBlock(s1.cache, target, data))
  }

  // ---------- one packet, one spell of ticks ----------

  function Block(img: Image, k: nat): (b: seq<Byte>)
    requires k < FLASH_SIZE / HF2_PAGE_SIZE
    ensures |b| == HF2_PAGE_SIZE
  {
    img[k * HF2_PAGE_SIZE..(k + 1) * HF2_PAGE_SIZE]
  }

  /** A block write that passes the strict bound is one pass of the loop. */
  lemma BlockIsChunk(s: Cache, dst: int, data: seq<Byte>)
    requires Inv(s) && |data| == HF2_PAGE_SIZE && FLASH_BASE <= dst && dst + HF2_PAGE_SIZE < FLASH_END
    requires dst % HF2_PAGE_SIZE == 0 || OneOrAligned(dst, HF2_PAGE_SIZE)
    ensures InBounds(dst, Packet(data), HF2_PAGE_SIZE) && dst % FLASH_PAGE_SIZE + HF2_PAGE_SIZE <= FLASH_PAGE_SIZE
    ensures WriteBlock(s, dst, data) == WriteLoop(s, dst, Packet(data), HF2_PAGE_SIZE) ==
      WriteChunk(s, dst, Packet(data), HF2_PAGE_SIZE)
  {
    hide WriteChunk, WriteLoop, InBounds;
    BlockBounds(dst, data);
    OneChunk(s, dst, Packet(data), HF2_PAGE_SIZE);
  }

  lemma BlockBounds(dst: int, data: seq<Byte>)
    requires |data| == HF2_PAGE_SIZE && FLASH_BASE <= dst && dst + HF2_PAGE_SIZE < FLASH_END
    requires dst % HF2_PAGE_SIZE == 0 || OneOrAligned(dst, HF2_PAGE_SIZE)
    ensures InBounds(dst, Packet(data), HF2_PAGE_SIZE) && dst % FLASH_PAGE_SIZE + HF2_PAGE_SIZE <= FLASH_PAGE_SIZE
    ensures ValidFlashAddr(dst) && ValidWrite(dst, Packet(data), HF2_PAGE_SIZE) && OneOrAligned(dst, HF2_PAGE_SIZE)
  {
  }

  /** A block write that passes the strict bound, seen through the cache. */
  lemma BlockWritten(s: Cache, dst: int, data: seq<Byte>)
    requires Inv(s) && Healthy(s.chip) && |data| == HF2_PAGE_SIZE
    requires FLASH_BASE <= dst && dst + HF2_PAGE_SIZE < FLASH_END
    requires dst % HF2_PAGE_SIZE == 0 || OneOrAligned(dst, HF2_PAGE_SIZE)
    ensures
      var r := WriteBlock(s, dst, data);
      && Healthy(r.chip) && View(r) == Overlay(View(s), dst - FLASH_BASE, data)
      && r.addr == PageAddress(dst)
      && r.chip.flash == (if s.addr == PageAddress(dst) then s.chip.flash else View(s))
      && r.resetTime == s.resetTime && r.restarted == s.restarted
  {
    hide View, FlushedChip, Overlay, WriteBlock, WriteLoop, InBounds, OneOrAligned, PageAddress;
    var src := Packet(data);
    BlockIsChunk(s, dst, data);
    assert data[..HF2_PAGE_SIZE] == data;
    WriteLoopView(s, dst, src, HF2_PAGE_SIZE);
    WriteLoopTimers(s, dst, src, HF2_PAGE_SIZE);
    FlushKeepsView(s);
  }

  /** The strict bound drops any block that ends at or beyond the end of flash. */
  lemma BlockDropped(s: Cache, dst: int, data: seq<Byte>)
    requires Inv(s) && |data| == HF2_PAGE_SIZE && 0 <= dst && FLASH_END <= dst + HF2_PAGE_SIZE
    requires (dst < 0x8000_0000 && dst % HF2_PAGE_SIZE == 0) || BlockFits(dst)
    ensures WriteBlock(s, dst, data) == s
  {
  }

  function Ticks(s: Cache, n: nat): (r: Cache)
    requires Inv(s)
    ensures Inv(r)
  {
    if n == 0 then s else Tick(Ticks(s, n - 1))
  }

  /** Without a reset timer, ticks can only write the cached page back early. */
  lemma {:induction false} TicksOnlyFlush(s: Cache, n: nat)
    requires Inv(s) && Healthy(s.chip) && s.resetTime == 0 && !s.restarted
    ensures
      var r := Ticks(s, n);
      && Healthy(r.chip) && r.resetTime == 0 && !r.restarted && View(r) == View(s)
      && ((r.addr == s.addr && r.chip.flash == s.chip.flash && r.buf == s.buf)
          || (r.addr == NO_CACHE && r.chip.flash == View(s)))
  {
    hide FlushedChip;
    if n > 0 {
      TicksOnlyFlush(s, n - 1);
      var t := Ticks(s, n - 1);
      FlushKeepsView(t.(ms := Wrap(t.ms + 1)));
    }
  }

  /** Address of the k-th advertised page. */
  function PageNo(k: nat): (a: int)
    requires k < FLASH_SIZE / HF2_PAGE_SIZE
    ensures Advertised(a)
  {
    FLASH_BASE + HF2_PAGE_SIZE * k
  }

  /** The session after the first `n` pages of the image, sent in address order, with `ticks[k]` timer ticks
      before page k. */
  function Feed(fw: Firmware, s: Session, img: Image, ticks: seq<nat>, n: nat): (r: Session)
    requires Linked(fw) && Ok(s) && n <= |ticks| && n <= FLASH_SIZE / HF2_PAGE_SIZE
    ensures Ok(r)
  {
    if n == 0 then s
    else
      var p := Feed(fw, s, img, ticks, n - 1);
      HandleFlashWrite(fw, p.(cache := Ticks(p.cache, ticks[n - 1])), PageNo(n - 1), Block(img, n - 1))
  }

  // ---------- staging ----------

  /** Offset of the old application start. */
  function AppOffset(fw: Firmware): (a: nat)
    requires Linked(fw)
  {
    fw.app - FLASH_BASE
  }

  /** How many image bytes are staged after `k` pages: blocks that would reach the last 256 bytes of flash are
      dropped. */
  function StagedLen(fw: Firmware, k: nat): (len: nat)
    requires Linked(fw)
    ensures len % HF2_PAGE_SIZE == 0 && AppOffset(fw) + len <= FLASH_SIZE
    ensures k >= 4 ==> len >= FLASH_PAGE_SIZE
  {
    if AppOffset(fw) + HF2_PAGE_SIZE * (k + 1) <= FLASH_SIZE then HF2_PAGE_SIZE * k
    else
      RoomAligned(fw);
      FLASH_SIZE - HF2_PAGE_SIZE - AppOffset(fw)
  }

  lemma RoomAligned(fw: Firmware)
    requires Linked(fw)
    ensures (FLASH_SIZE - HF2_PAGE_SIZE - AppOffset(fw)) % HF2_PAGE_SIZE == 0
  {
  }

  /** Flash `f` with the first `len` image bytes staged. */
  function StagedImage(fw: Firmware, f: Image, img: Image, len: nat): Image
    requires Linked(fw) && AppOffset(fw) + len <= FLASH_SIZE
  {
    Overlay(f, AppOffset(fw), img[..len])
  }

  /** The table in the image. */
  function ImageTable(fw: Firmware, img: Image): BaseTable
    requires Linked(fw)
  {
    TableIn(Window(img, FLASH_BASE, fw.vt))
  }

  /** The application start the image's table names. */
  function ImageApp(fw: Firmware, img: Image): int
    requires Linked(fw)
  {
    PageAddress(ImageTable(fw, img).application)
  }

  /** No valid base vector table already sits at the old application start. */
  predicate NoStaleTable(fw: Firmware, f: Image)
    requires Linked(fw)
  {
    !ValidTable(TableIn(Window(f, fw.app, fw.vt)))
  }

  /** A fault-free device with no reset pending. */
  predicate Quiet(c: Cache) {
    Healthy(c.chip) && c.resetTime == 0 && !c.restarted
  }

  /** Cache and flash after `k` pages have been staged, and possibly written back early. */
  predicate CacheStaging(fw: Firmware, f: Image, img: Image, c: Cache, k: nat)
    requires Linked(fw)
  {
    && Inv(c) && Quiet(c)
    && View(c) == StagedImage(fw, f, img, StagedLen(fw, k))
    && (c.addr == NO_CACHE || (k > 0 && fw.app <= c.addr <= fw.app + HF2_PAGE_SIZE * (k - 1)))
    && ((Window(c.chip.flash, fw.app, fw.vt) == Window(f, fw.app, fw.vt) && k <= 4)
        || (Window(c.chip.flash, fw.app, fw.vt) == Window(img, FLASH_BASE, fw.vt) && fw.vt < HF2_PAGE_SIZE * k))
  }

  /** What the session knows after `k` > 0 pages. */
  predicate Recognised(fw: Firmware, img: Image, s: Session, k: nat)
    requires Linked(fw)
  {
    var t := ImageTable(fw, img);
    && !s.changed
    && (s.found ==> ValidTable(t) && s.newApp == ImageApp(fw, img) &&
                    s.newBootSize == Wrap(s.newApp - FLASH_BASE) && s.newBaseSize == Wrap(t.baseEnd - FLASH_BASE))
    && (!s.found ==> s.newApp == fw.app && (k <= 5 || !ValidTable(t)))
  }

  predicate Staging(fw: Firmware, f: Image, img: Image, s: Session, k: nat)
    requires Linked(fw)
  {
    Ok(s) && CacheStaging(fw, f, img, s.cache, k) && (k > 0 ==> Recognised(fw, img, s, k))
  }

  /** The first page that is not a bootloader page: that of the image's own table, or the old application start. */
  function StagingEnd(fw: Firmware, img: Image): int
    requires Linked(fw)
  {
    if ValidTable(ImageTable(fw, img)) then ImageApp(fw, img) else fw.app
  }

  /** The image's bootloader has at least two pages, if it has a table at all. */
  predicate TwoPages(fw: Firmware, img: Image)
    requires Linked(fw)
  {
    StagingEnd(fw, img) >= FLASH_BASE + 2 * FLASH_PAGE_SIZE
  }

  lemma ViewWindow(fw: Firmware, f: Image, img: Image, len: nat)
    requires Linked(fw) && AppOffset(fw) + len <= FLASH_SIZE && len % HF2_PAGE_SIZE == 0
    ensures Window(StagedImage(fw, f, img, len), fw.app, fw.vt) ==
      if fw.vt < len then Window(img, FLASH_BASE, fw.vt) else Window(f, fw.app, fw.vt)
  {
    var g, o := StagedImage(fw, f, img, len), AppOffset(fw) + fw.vt;
    if fw.vt < len {
      BlockSplit(fw.vt, len);
      assert g[o..o + TABLE_SIZE] == img[fw.vt..fw.vt + TABLE_SIZE];
    } else {
      assert g[o..o + TABLE_SIZE] == f[o..o + TABLE_SIZE];
    }
  }

  /** A table inside one 256-byte block is staged whole or not at all. */
  lemma BlockSplit(vt: nat, len: nat)
    requires vt % HF2_PAGE_SIZE + TABLE_SIZE <= HF2_PAGE_SIZE && len % HF2_PAGE_SIZE == 0 && vt < len
    ensures vt + TABLE_SIZE <= len
  {
  }

  lemma TicksKeepStaging(fw: Firmware, f: Image, img: Image, c: Cache, k: nat, n: nat)
    requires Linked(fw) && CacheStaging(fw, f, img, c, k)
    ensures CacheStaging(fw, f, img, Ticks(c, n), k)
  {
    hide View, StagedImage, Window, Ticks;
    TicksOnlyFlush(c, n);
    ViewWindow(fw, f, img, StagedLen(fw, k));
  }

  /** Arithmetic of the strict bound: page `k` is staged unless it would reach the last block. */
  lemma StagedLenStep(fw: Firmware, k: nat)
    requires Linked(fw) && k < FLASH_SIZE / HF2_PAGE_SIZE
    ensures
      var dst := Staged(fw, PageNo(k));
      if dst + HF2_PAGE_SIZE < FLASH_END
      then StagedLen(fw, k) == HF2_PAGE_SIZE * k && StagedLen(fw, k + 1) == HF2_PAGE_SIZE * (k + 1)
      else k >= 7 && StagedLen(fw, k + 1) == StagedLen(fw, k)
  {
  }

  /** Writing the next staged block extends the staged image. */
  lemma StagedImageGrows(fw: Firmware, f: Image, img: Image, k: nat)
    requires Linked(fw) && k < FLASH_SIZE / HF2_PAGE_SIZE && AppOffset(fw) + HF2_PAGE_SIZE * (k + 1) <= FLASH_SIZE
    ensures Overlay(StagedImage(fw, f, img, HF2_PAGE_SIZE * k), AppOffset(fw) + HF2_PAGE_SIZE * k, Block(img, k)) ==
      StagedImage(fw, f, img, HF2_PAGE_SIZE * (k + 1))
  {
    OverlayTwice(f, AppOffset(fw), img[..HF2_PAGE_SIZE * k], Block(img, k));
    assert img[..HF2_PAGE_SIZE * k] + Block(img, k) == img[..HF2_PAGE_SIZE * (k + 1)];
  }

  lemma SwitchPage(fw: Firmware, addr: int, k: nat)
    requires Linked(fw) && k < FLASH_SIZE / HF2_PAGE_SIZE
    requires addr == NO_CACHE || (PageInFlash(addr) && fw.app <= addr <= fw.app + HF2_PAGE_SIZE * (k - 1))
    ensures k == 4 ==> addr != PageAddress(Staged(fw, PageNo(k)))
    ensures fw.app <= PageAddress(Staged(fw, PageNo(k))) <= fw.app + HF2_PAGE_SIZE * k
  {
    assert PageAddress(fw.app + HF2_PAGE_SIZE * 4) == fw.app + FLASH_PAGE_SIZE;
  }

  lemma StageWrite(fw: Firmware, f: Image, img: Image, c: Cache, k: nat)
    requires Linked(fw) && k < FLASH_SIZE / HF2_PAGE_SIZE && CacheStaging(fw, f, img, c, k)
    ensures CacheStaging(fw, f, img, WriteBlock(c, Staged(fw, PageNo(k)), Block(img, k)), k + 1)
  {
    hide View, StagedImage, Window, WriteBlock, Overlay, PageAddress;
    var dst := Staged(fw, PageNo(k));
    StagedLenStep(fw, k);
    SwitchPage(fw, c.addr, k);
    if dst + HF2_PAGE_SIZE < FLASH_END {
      BlockWritten(c, dst, Block(img, k));
      StagedImageGrows(fw, f, img, k);
      ViewWindow(fw, f, img, StagedLen(fw, k));
    } else {
      BlockDropped(c, dst, Block(img, k));
    }
  }

  lemma RecogniseWhileStaging(fw: Firmware, f: Image, img: Image, s: Session, k: nat)
    requires Linked(fw) && k < FLASH_SIZE / HF2_PAGE_SIZE && Staging(fw, f, img, s, k) && NoStaleTable(fw, f)
    requires TwoPages(fw, img) && PageNo(k) <= StagingEnd(fw, img)
    ensures
      var r := Recognise(fw, s, PageNo(k));
      && Recognised(fw, img, r, k + 1)
      && (PageNo(k) < StagingEnd(fw, img) ==> PageNo(k) < r.newApp)
      && (ValidTable(ImageTable(fw, img)) && k >= 5 ==> r.found)
  {
    hide View, StagedImage, Window, TableIn;
  }

  /** While bootloader pages arrive, each is staged above the old application start. */
  lemma StagePacket(fw: Firmware, f: Image, img: Image, s: Session, k: nat, n: nat)
    requires Linked(fw) && k < FLASH_SIZE / HF2_PAGE_SIZE && Staging(fw, f, img, s, k) && NoStaleTable(fw, f)
    requires TwoPages(fw, img) && PageNo(k) < StagingEnd(fw, img)
    ensures Staging(fw, f, img, HandleFlashWrite(fw, s.(cache := Ticks(s.cache, n)), PageNo(k), Block(img, k)), k + 1)
  {
    hide CacheStaging, Recognised, Recognise, WriteBlock, StagingEnd, TwoPages, Ticks, NoStaleTable;
    TicksKeepStaging(fw, f, img, s.cache, k, n);
    var t := s.(cache := Ticks(s.cache, n));
    RecognisedAnyCache(fw, img, s, t.cache, k);
    RecogniseWhileStaging(fw, f, img, t, k);
    var r := Recognise(fw, t, PageNo(k));
    RecognisedUnchanged(fw, img, r, k + 1);
    StageWrite(fw, f, img, t.cache, k);
    var c := WriteBlock(t.cache, Staged(fw, PageNo(k)), Block(img, k));
    RecognisedAnyCache(fw, img, r, c, k + 1);
  }

  lemma RecognisedAnyCache(fw: Firmware, img: Image, s: Session, c: Cache, k: nat)
    requires Linked(fw)
    ensures Recognised(fw, img, s.(cache := c), k) == Recognised(fw, img, s, k)
  {
  }

  lemma RecognisedUnchanged(fw: Firmware, img: Image, s: Session, k: nat)
    requires Linked(fw) && Recognised(fw, img, s, k)
    ensures !s.changed
  {
  }

  // ---------- safety ----------

  /** Flash below the old application start is as in `f`, and the cache cannot change that. */
  predicate Safe(fw: Firmware, f: Image, c: Cache) {
    Inv(c) && fw.app <= c.addr && SameBelow(c.chip.flash, f, fw.app)
  }

  lemma SafeView(fw: Firmware, f: Image, c: Cache)
    requires Safe(fw, f, c)
    ensures SameBelow(View(c), f, fw.app)
  {
  }

  lemma SafeFlush(fw: Firmware, f: Image, c: Cache)
    requires Safe(fw, f, c)
    ensures Safe(fw, f, Flush(c))
  {
    hide FlushedChip;
    FlushAbove(c, fw.app);
  }

  lemma {:induction false} SafeTicks(fw: Firmware, f: Image, c: Cache, n: nat)
    requires Safe(fw, f, c)
    ensures Safe(fw, f, Ticks(c, n))
  {
    if n > 0 {
      hide FlushedChip, SameBelow;
      SafeTicks(fw, f, c, n - 1);
      var t := Ticks(c, n - 1);
      SafeFlush(fw, f, t.(ms := Wrap(t.ms + 1)));
    }
  }

  /** A write at or above the old application start is safe, whatever its size or source. */
  lemma SafeWrite(fw: Firmware, f: Image, c: Cache, dst: int, src: Source, count: int)
    requires Linked(fw) && Safe(fw, f, c) && fw.app <= dst && dst + count < 0x1_0000_0000
    requires src.Rom? ==> 0 <= src.at && src.at + count < 0x1_0000_0000
    requires (src.Packet? ==> count <= |src.data|) && OneOrAligned(dst, count)
    ensures Safe(fw, f, FlashWrite(c, dst, src, count))
  {
    hide WriteLoop;
    if count > 0 && ValidWrite(dst, src, count) {
      WriteLoopAbove(c, dst, src, count, fw.app);
    }
  }

  lemma SafeBlock(fw: Firmware, f: Image, c: Cache, dst: int, data: seq<Byte>)
    requires Linked(fw) && Safe(fw, f, c) && |data| == HF2_PAGE_SIZE
    requires fw.app <= dst && ((dst < 0x8000_0000 && dst % HF2_PAGE_SIZE == 0) || BlockFits(dst))
    ensures Safe(fw, f, WriteBlock(c, dst, data))
  {
    hide FlashWrite, Safe;
    if ValidFlashAddr(dst) {
      SafeWrite(fw, f, c, dst, Packet(data), HF2_PAGE_SIZE);
    }
  }

  lemma SafeUpdate(fw: Firmware, f: Image, c: Cache, bootSize: Word, baseSize: Word, target: int)
    requires Linked(fw) && Inv(c) && Safe(fw, f, c) && InFlash(target) && target % FLASH_PAGE_SIZE == 0
    ensures Safe(fw, f, BootloaderUpdate(fw, c, bootSize, baseSize, target).0)
  {
    hide FlashWrite, Flush, Safe;
    var dst := target + (fw.app - FLASH_BASE);
    SafeWrite(fw, f, c, dst, Rom(fw.app), ToInt(baseSize));
    SafeFlush(fw, f, FlashWrite(c, dst, Rom(fw.app), ToInt(baseSize)));
  }

  lemma SafeShifted(fw: Firmware, f: Image, c: Cache, newApp: Word, target: int, data: seq<Byte>)
    requires Linked(fw) && Safe(fw, f, c) && |data| == HF2_PAGE_SIZE && fw.app <= target < newApp
    requires Advertised(target) || BlockFits(Destination(fw, newApp, target))
    ensures Safe(fw, f, WriteBlock(c, Destination(fw, newApp, target), data))
  {
    hide Safe, FlashWrite, Staged;
    var dst := Destination(fw, newApp, target);
    if FLASH_BASE <= dst {
      ShiftUp(fw, newApp, target);
      SafeBlock(fw, f, c, dst, data);
    }
  }

  /** A shift that lands at or above the flash base did not wrap around. */
  lemma ShiftUp(fw: Firmware, newApp: Word, target: int)
    requires Linked(fw) && 0 <= target < newApp && FLASH_BASE <= Destination(fw, newApp, target)
    ensures Destination(fw, newApp, target) == target + (fw.app - FLASH_BASE)
  {
    var x := target + (fw.app - FLASH_BASE);
    assert Wrap(x) == if x >= 0x1_0000_0000 then x - 0x1_0000_0000 else x;
  }

  /** A target at or above the old application start, aligned or not, never reaches the old bootloader. */
  lemma SafePacket(fw: Firmware, f: Image, s: Session, target: int, data: seq<Byte>)
    requires Linked(fw) && Ok(s) && |data| == HF2_PAGE_SIZE && (Advertised(target) || Handled(fw, s, target))
    requires Safe(fw, f, s.cache) && fw.app <= target
    ensures Safe(fw, f, HandleFlashWrite(fw, s, target, data).cache)
  {
    hide WriteBlock, BootloaderUpdate, Safe, Flush, Recognise;
    var s1 := Recognise(fw, s, target);
    SafeFlush(fw, f, s.cache);
    if target < s1.newApp {
      if !s1.changed {
        SafeShifted(fw, f, s.cache, s1.newApp, target, data);
      }
    } else if !(s1.found && target == s1.newApp) {
      if !s1.changed {
        SafeBlock(fw, f, s.cache, target, data);
      }
    } else if !s1.changed {
      SafeUpdate(fw, f, Flush(s.cache), s1.newBootSize, s1.newBaseSize, target);
      SafeBlock(fw, f, BootloaderUpdate(fw, Flush(s.cache), s1.newBootSize, s1.newBaseSize, target).0, target, data);
    }
  }

  lemma StagingIsSafe(fw: Firmware, f: Image, img: Image, c: Cache, k: nat)
    requires Linked(fw) && CacheStaging(fw, f, img, c, k)
    ensures Safe(fw, f, c)
  {
    hide Window;
    forall i | 0 <= i < FLASH_SIZE && i < fw.app - FLASH_BASE
      ensures c.chip.flash[i] == f[i]
    {
      assert View(c)[i] == c.chip.flash[i];
    }
  }

  /** A changed bootloader has been found: the session waits for the update. */
  predicate Halted(s: Session) {
    s.changed && s.found && s.newApp != 0
  }

  /** Once a changed bootloader is detected, nothing is written until a page for the flash base starts over. */
  lemma NothingAfterChange(fw: Firmware, s: Session, target: int, data: seq<Byte>)
    requires Linked(fw) && Ok(s) && 0 <= target < 0x1_0000_0000 && target != FLASH_BASE && |data| == HF2_PAGE_SIZE
      && Halted(s)
    ensures HandleFlashWrite(fw, s, target, data) == s
  {
  }

  /** The session can only be in the changed state together with the table that put it there. */
  lemma ChangeMeansHalted(fw: Firmware, s: Session, target: int, data: seq<Byte>)
    requires Linked(fw) && Ok(s) && |data| == HF2_PAGE_SIZE && (Advertised(target) || Handled(fw, s, target))
    requires s.changed ==> Halted(s)
    ensures HandleFlashWrite(fw, s, target, data).changed ==> Halted(HandleFlashWrite(fw, s, target, data))
  {
    hide BootloaderUpdate, WriteBlock;
  }

  /** The running bootloader's own table names the application start it was linked with. */
  predicate RunningTable(fw: Firmware, f: Image)
    requires Linked(fw)
  {
    PageAddress(TableIn(Window(f, FLASH_BASE, fw.vt)).application) == fw.app
  }

  /** If the staged bootloader is byte for byte the running one, it names the same application start. */
  lemma IdenticalMeansSameApp(fw: Firmware, f: Image, img: Image, len: nat, size: int)
    requires Linked(fw) && AppOffset(fw) + len <= FLASH_SIZE && len >= FLASH_PAGE_SIZE && size >= FLASH_PAGE_SIZE
    requires RunningTable(fw, f) && !Differs(StagedImage(fw, f, img, len), fw.app, size)
    ensures ImageApp(fw, img) == fw.app
  {
    var g := StagedImage(fw, f, img, len);
    forall i | fw.vt <= i < fw.vt + TABLE_SIZE
      ensures img[i] == f[i]
    {
      assert FlashByte(g, FLASH_BASE + i) == f[i];
      assert FlashByte(g, FLASH_BASE + i + (fw.app - FLASH_BASE)) == img[i];
    }
    assert Window(img, FLASH_BASE, fw.vt) == Window(f, FLASH_BASE, fw.vt);
  }

  /** The first application page: everything staged is flushed and the staged bootloader is compared. */
  lemma FirstAppPacket(fw: Firmware, f: Image, img: Image, s: Session, k: nat, n: nat)
    requires Linked(fw) && k < FLASH_SIZE / HF2_PAGE_SIZE && Staging(fw, f, img, s, k) && NoStaleTable(fw, f)
    requires TwoPages(fw, img) && ValidTable(ImageTable(fw, img)) && PageNo(k) == ImageApp(fw, img)
    ensures
      var staged := StagedImage(fw, f, img, StagedLen(fw, k));
      var c := Flush(Ticks(s.cache, n));
      var baseSize := Wrap(ImageTable(fw, img).baseEnd - FLASH_BASE);
      var r := HandleFlashWrite(fw, s.(cache := Ticks(s.cache, n)), PageNo(k), Block(img, k));
      && Quiet(c) && c.addr == NO_CACHE && c.chip.flash == staged
      && r.found && r.newApp == PageNo(k)
      && r.changed == Differs(staged, fw.app, HF2_PAGE_SIZE * k)
      && (r.changed ==> r.cache == BootloaderUpdate(fw, c, HF2_PAGE_SIZE * k, baseSize, PageNo(k)).0)
      && (!r.changed ==> r.cache == WriteBlock(c, PageNo(k), Block(img, k)))
  {
    hide View, StagedImage, Window, TableIn, Recognise, Ticks, WriteBlock, FlushedChip, Differs, FlashWrite,
         NoStaleTable;
    TicksKeepStaging(fw, f, img, s.cache, k, n);
    var t := s.(cache := Ticks(s.cache, n));
    RecognisedAnyCache(fw, img, s, t.cache, k);
    RecogniseWhileStaging(fw, f, img, t, k);
    FlushKeepsView(t.cache);
  }

  lemma ViewUncached(c: Cache)
    requires Inv(c) && c.addr == NO_CACHE
    ensures View(c) == c.chip.flash
  {
  }

  /** A device about to receive an image: nothing cached, no reset pending, its own table in place. The session
      variables may be left over from anything. */
  predicate Ready(fw: Firmware, s: Session)
    requires Linked(fw)
  {
    Ok(s) && s.cache.addr == NO_CACHE && Quiet(s.cache) && RunningTable(fw, s.cache.chip.flash)
  }

  /** One with no stale table at the application start either. */
  predicate Fresh(fw: Firmware, s: Session)
    requires Linked(fw)
  {
    Ready(fw, s) && NoStaleTable(fw, s.cache.chip.flash)
  }

  lemma FreshIsStaging(fw: Firmware, s: Session, img: Image)
    requires Linked(fw) && Fresh(fw, s)
    ensures Staging(fw, s.cache.chip.flash, img, s, 0)
  {
    assert AppOffset(fw) + HF2_PAGE_SIZE <= FLASH_SIZE;
    assert Overlay(s.cache.chip.flash, AppOffset(fw), img[..0]) == s.cache.chip.flash;
  }

  /** Where an in-order session stands after `n` pages. */
  predicate Phase(fw: Firmware, f: Image, img: Image, s: Session, n: nat)
    requires Linked(fw)
  {
    && Ok(s) && Safe(fw, f, s.cache)
    && (FLASH_BASE + HF2_PAGE_SIZE * n <= StagingEnd(fw, img) ==> Staging(fw, f, img, s, n))
    && (n > 0 && StagingEnd(fw, img) < FLASH_BASE + HF2_PAGE_SIZE * n && FLASH_BASE + HF2_PAGE_SIZE * (n - 1) < fw.app
        ==> Halted(s))
  }

  lemma FirstAppPhase(fw: Firmware, f: Image, img: Image, s: Session, k: nat, n: nat)
    requires Linked(fw) && k < FLASH_SIZE / HF2_PAGE_SIZE && Staging(fw, f, img, s, k) && NoStaleTable(fw, f)
    requires TwoPages(fw, img) && ValidTable(ImageTable(fw, img)) && PageNo(k) == ImageApp(fw, img)
      && PageNo(k) < fw.app
    requires RunningTable(fw, f)
    ensures
      var r := HandleFlashWrite(fw, s.(cache := Ticks(s.cache, n)), PageNo(k), Block(img, k));
      Safe(fw, f, r.cache) && Halted(r)
  {
    hide StagedImage, ImageTable, CacheStaging, Recognised, Ticks, Flush, BootloaderUpdate, HandleFlashWrite,
         NoStaleTable, RunningTable, Safe, Recognise;
    FirstAppPacket(fw, f, img, s, k, n);
    if !Differs(StagedImage(fw, f, img, StagedLen(fw, k)), fw.app, HF2_PAGE_SIZE * k) {
      IdenticalMeansSameApp(fw, f, img, StagedLen(fw, k), HF2_PAGE_SIZE * k);
    }
    StagingIsSafe(fw, f, img, s.cache, k);
    SafeTicks(fw, f, s.cache, n);
    SafeFlush(fw, f, Ticks(s.cache, n));
    SafeUpdate(fw, f, Flush(Ticks(s.cache, n)), HF2_PAGE_SIZE * k, Wrap(ImageTable(fw, img).baseEnd - FLASH_BASE),
        PageNo(k));
  }

  lemma PhaseStep(fw: Firmware, f: Image, img: Image, s: Session, k: nat, n: nat)
    requires Linked(fw) && k < FLASH_SIZE / HF2_PAGE_SIZE && Phase(fw, f, img, s, k)
    requires NoStaleTable(fw, f) && RunningTable(fw, f) && TwoPages(fw, img)
    ensures Phase(fw, f, img, HandleFlashWrite(fw, s.(cache := Ticks(s.cache, n)), PageNo(k), Block(img, k)), k + 1)
  {
    hide Staging, Ticks, Safe, NoStaleTable, RunningTable, HandleFlashWrite, ImageTable, Block, PageAddress, Inv, Phase,
         StagingEnd, TwoPages;
    PhaseParts(fw, f, img, s, k);
    var target := PageNo(k);
    var t := s.(cache := Ticks(s.cache, n));
    var r := HandleFlashWrite(fw, t, target, Block(img, k));
    SafeTicks(fw, f, s.cache, n);
    StagingEndPlace(fw, img);
    if target < StagingEnd(fw, img) {
      StagePacket(fw, f, img, s, k, n);
      StagingSafe(fw, f, img, r, k + 1);
    } else if fw.app <= target {
      SafePacket(fw, f, t, target, Block(img, k));
    } else if target == StagingEnd(fw, img) {
      FirstAppPhase(fw, f, img, s, k, n);
    } else {
      NothingAfterChange(fw, t, target, Block(img, k));
    }
    PhaseFrom(fw, f, img, r, k);
  }

  lemma StagingEndPlace(fw: Firmware, img: Image)
    requires Linked(fw)
    ensures StagingEnd(fw, img) % FLASH_PAGE_SIZE == 0
    ensures StagingEnd(fw, img) < fw.app ==>
      ValidTable(ImageTable(fw, img)) && StagingEnd(fw, img) == ImageApp(fw, img)
    ensures TwoPages(fw, img) ==> FLASH_BASE < StagingEnd(fw, img)
  {
    hide TableIn, Window, PageAddress;
    PageAligned(ImageTable(fw, img).application);
  }

  /** What the phase says about the page that is next. */
  lemma PhaseParts(fw: Firmware, f: Image, img: Image, s: Session, k: nat)
    requires Linked(fw) && k < FLASH_SIZE / HF2_PAGE_SIZE && Phase(fw, f, img, s, k)
    ensures Ok(s) && Safe(fw, f, s.cache)
    ensures PageNo(k) <= StagingEnd(fw, img) ==> Staging(fw, f, img, s, k)
    ensures FLASH_BASE < StagingEnd(fw, img) < PageNo(k) < fw.app ==> Halted(s)
  {
    hide Staging, Safe, StagingEnd, Ok, Halted;
  }

  /** What has to hold after page `k`. */
  lemma PhaseFrom(fw: Firmware, f: Image, img: Image, r: Session, k: nat)
    requires Linked(fw) && k < FLASH_SIZE / HF2_PAGE_SIZE && Ok(r) && Safe(fw, f, r.cache)
    requires PageNo(k) < StagingEnd(fw, img) ==> Staging(fw, f, img, r, k + 1)
    requires StagingEnd(fw, img) <= PageNo(k) < fw.app ==> Halted(r)
    requires StagingEnd(fw, img) % FLASH_PAGE_SIZE == 0
    ensures Phase(fw, f, img, r, k + 1)
  {
    hide Staging, Safe, StagingEnd, Ok, Halted;
    var end := StagingEnd(fw, img);
    assert end == FLASH_PAGE_SIZE * (end / FLASH_PAGE_SIZE);
  }

  lemma StagingSafe(fw: Firmware, f: Image, img: Image, s: Session, k: nat)
    requires Linked(fw) && Staging(fw, f, img, s, k)
    ensures Ok(s) && Safe(fw, f, s.cache)
  {
    StagingIsSafe(fw, f, img, s.cache, k);
  }

  lemma {:induction false} SessionPhase(fw: Firmware, s: Session, img: Image, ticks: seq<nat>, n: nat)
    requires Linked(fw) && Fresh(fw, s) && TwoPages(fw, img) && n <= |ticks| && n <= FLASH_SIZE / HF2_PAGE_SIZE
    ensures Phase(fw, s.cache.chip.flash, img, Feed(fw, s, img, ticks, n), n)
  {
    hide Phase, NoStaleTable, RunningTable, TwoPages, HandleFlashWrite;
    if n == 0 {
      FreshIsStaging(fw, s, img);
      StagingSafe(fw, s.cache.chip.flash, img, s, 0);
      PhaseZero(fw, s.cache.chip.flash, img, s);
    } else {
      SessionPhase(fw, s, img, ticks, n - 1);
      PhaseStep(fw, s.cache.chip.flash, img, Feed(fw, s, img, ticks, n - 1), n - 1, ticks[n - 1]);
    }
  }

  lemma PhaseZero(fw: Firmware, f: Image, img: Image, s: Session)
    requires Linked(fw) && Staging(fw, f, img, s, 0) && Safe(fw, f, s.cache)
    ensures Phase(fw, f, img, s, 0)
  {
  }

  // ---------- a changed bootloader ----------

  /** Room for the staged bootloader and the page baseloader_fetch insists on behind it. */
  predicate StagingFits(fw: Firmware, img: Image)
    requires Linked(fw)
  {
    ValidTable(ImageTable(fw, img)) && TwoPages(fw, img)
    && AppOffset(fw) + (ImageApp(fw, img) - FLASH_BASE) + FLASH_PAGE_SIZE < FLASH_SIZE
  }

  /** Room for a copier of `baseSize` bytes behind the staged bootloader; it is no longer than that bootloader. */
  predicate CopierFits(fw: Firmware, img: Image, baseSize: int)
    requires Linked(fw)
  {
    var size := ImageApp(fw, img) - FLASH_BASE;
    0 <= baseSize <= size && AppOffset(fw) + size + baseSize < FLASH_SIZE
  }

  /** Both fit, and the copier covers the table. */
  predicate FitsForUpdate(fw: Firmware, img: Image, baseSize: int)
    requires Linked(fw)
  {
    StagingFits(fw, img) && fw.vt + TABLE_SIZE <= baseSize && CopierFits(fw, img, baseSize)
  }

  /** The size of the copier by the image's own table. */
  function OwnBase(fw: Firmware, img: Image): int
    requires Linked(fw)
  {
    ImageTable(fw, img).baseEnd - FLASH_BASE
  }

  /** Flash ready for the copier: the new bootloader staged, and its first bytes, which are the copier, behind it. */
  function ReadyImage(fw: Firmware, f: Image, img: Image, baseSize: int): Image
    requires Linked(fw) && StagingFits(fw, img) && CopierFits(fw, img, baseSize)
  {
    var size := ImageApp(fw, img) - FLASH_BASE;
    Overlay(StagedImage(fw, f, img, size), AppOffset(fw) + size, img[..baseSize])
  }

  /** The image carries the bootloader that is running. */
  predicate SameBootloader(fw: Firmware, f: Image, img: Image)
    requires Linked(fw)
  {
    ValidTable(ImageTable(fw, img)) && img[..AppOffset(fw)] == f[..AppOffset(fw)]
  }

  lemma ChangedDiffers(fw: Firmware, f: Image, img: Image, size: nat)
    requires Linked(fw) && RunningTable(fw, f) && ValidTable(ImageTable(fw, img)) && !SameBootloader(fw, f, img)
    requires size == ImageApp(fw, img) - FLASH_BASE && FLASH_PAGE_SIZE <= size && AppOffset(fw) + size <= FLASH_SIZE
    ensures Differs(StagedImage(fw, f, img, size), fw.app, size)
  {
    var g := StagedImage(fw, f, img, size);
    if !Differs(g, fw.app, size) {
      IdenticalMeansSameApp(fw, f, img, size, size);
      forall i | 0 <= i < size
        ensures img[i] == f[i]
      {
        assert FlashByte(g, FLASH_BASE + i) == f[i];
        assert FlashByte(g, FLASH_BASE + i + (fw.app - FLASH_BASE)) == img[i];
      }
      PrefixAgrees(img, f, AppOffset(fw));
    }
  }

  lemma PrefixAgrees(img: Image, f: Image, len: nat)
    requires len <= FLASH_SIZE && forall i :: 0 <= i < len ==> img[i] == f[i]
    ensures img[..len] == f[..len]
  {
  }

  /** The copier is written behind the staged bootloader if it fits there, and not at all otherwise. */
  lemma CopierWritten(fw: Firmware, f: Image, img: Image, c: Cache, baseSize: Word)
    requires Linked(fw) && StagingFits(fw, img) && Inv(c) && Quiet(c) && c.addr == NO_CACHE
    requires
      var size := ImageApp(fw, img) - FLASH_BASE;
      && c.chip.flash == StagedImage(fw, f, img, size) && Differs(c.chip.flash, fw.app, size)
      && ImageApp(fw, img) % FLASH_PAGE_SIZE == 0 && baseSize <= size
    ensures
      var r := BootloaderUpdate(fw, c, ImageApp(fw, img) - FLASH_BASE, baseSize, ImageApp(fw, img)).0;
      && r.addr == NO_CACHE && Quiet(r)
      && r.chip.flash == if CopierFits(fw, img, baseSize) then ReadyImage(fw, f, img, baseSize) else c.chip.flash
  {
    hide Differs, StagedImage, FlushedChip, ImageTable, ImageApp, InBounds, Undisturbed, View, PageAddress,
         WriteLoop, Bytes, ValidWrite, Overlay, OneOrAligned;
    var size := ImageApp(fw, img) - FLASH_BASE;
    var dst, src := ImageApp(fw, img) + AppOffset(fw), Rom(fw.app);
    CopierPage(fw, size);
    if CopierFits(fw, img, baseSize) && baseSize > 0 {
      CopierInBounds(fw, c, dst, size, baseSize);
      WriteLoopView(c, dst, src, baseSize);
      WriteLoopTimers(c, dst, src, baseSize);
      ViewUncached(c);
      StagedPrefix(fw, f, img, size, baseSize);
      FlushKeepsView(WriteLoop(c, dst, src, baseSize));
    } else {
      CopierRefused(fw, dst, size, baseSize);
      NothingBehind(fw, f, img);
      FlushKeepsView(c);
      ViewUncached(c);
    }
  }

  lemma CopierPage(fw: Firmware, size: int)
    requires Linked(fw) && size % FLASH_PAGE_SIZE == 0
    ensures (FLASH_BASE + size + AppOffset(fw)) % FLASH_PAGE_SIZE == 0
    ensures OneOrAligned(FLASH_BASE + size + AppOffset(fw), 0)
  {
  }

  lemma CopierRefused(fw: Firmware, dst: int, size: int, baseSize: int)
    requires Linked(fw) && dst == FLASH_BASE + size + AppOffset(fw) && 0 <= baseSize <= size <= FLASH_SIZE
    ensures baseSize > 0 && AppOffset(fw) + size + baseSize >= FLASH_SIZE ==> !ValidWrite(dst, Rom(fw.app), baseSize)
  {
  }

  lemma NothingBehind(fw: Firmware, f: Image, img: Image)
    requires Linked(fw) && StagingFits(fw, img)
    ensures CopierFits(fw, img, 0) ==>
      ReadyImage(fw, f, img, 0) == StagedImage(fw, f, img, ImageApp(fw, img) - FLASH_BASE)
  {
  }

  lemma CopierInBounds(fw: Firmware, c: Cache, dst: int, size: int, baseSize: int)
    requires Linked(fw) && dst == FLASH_BASE + size + AppOffset(fw) && size % FLASH_PAGE_SIZE == 0
    requires 0 < baseSize <= size && AppOffset(fw) + size + baseSize < FLASH_SIZE && c.addr == NO_CACHE
    ensures InBounds(dst, Rom(fw.app), baseSize) && ValidWrite(dst, Rom(fw.app), baseSize)
    ensures Undisturbed(c, dst, Rom(fw.app), baseSize)
  {
  }

  lemma StagedPrefix(fw: Firmware, f: Image, img: Image, size: nat, len: nat)
    requires Linked(fw) && AppOffset(fw) + size <= FLASH_SIZE && len <= size
    ensures Bytes(Rom(fw.app), StagedImage(fw, f, img, size), len) == img[..len]
  {
  }

  lemma ChangedPacket(fw: Firmware, f: Image, img: Image, s: Session, k: nat, n: nat)
    requires Linked(fw) && k < FLASH_SIZE / HF2_PAGE_SIZE && Staging(fw, f, img, s, k) && NoStaleTable(fw, f)
    requires StagingFits(fw, img) && CopierFits(fw, img, OwnBase(fw, img)) && PageNo(k) == ImageApp(fw, img)
    requires RunningTable(fw, f) && !SameBootloader(fw, f, img)
    ensures
      var r := HandleFlashWrite(fw, s.(cache := Ticks(s.cache, n)), PageNo(k), Block(img, k));
      Halted(r) && r.cache.addr == NO_CACHE && Quiet(r.cache)
      && r.cache.chip.flash == ReadyImage(fw, f, img, OwnBase(fw, img))
  {
    hide HandleFlashWrite, StagedImage, Staging, BootloaderUpdate, Differs, Flush, Ticks, ReadyImage, NoStaleTable,
         RunningTable, SameBootloader, Recognise, PageAddress, TableIn, Window, View;
    StagingSafe(fw, f, img, s, k);
    StagedWhole(fw, k);
    var c := Flush(Ticks(s.cache, n));
    FirstAppPacket(fw, f, img, s, k, n);
    ChangedDiffers(fw, f, img, HF2_PAGE_SIZE * k);
    PageAligned(ImageTable(fw, img).application);
    assert c.chip.flash == StagedImage(fw, f, img, HF2_PAGE_SIZE * k);
    CopierWritten(fw, f, img, c, OwnBase(fw, img));
  }

  /** With nothing cached, time passes without touching flash. */
  lemma {:induction false} TicksUncached(c: Cache, n: nat)
    requires Inv(c) && c.addr == NO_CACHE
    ensures Ticks(c, n).addr == NO_CACHE && Ticks(c, n).chip == c.chip
  {
    if n > 0 {
      TicksUncached(c, n - 1);
    }
  }

  /** A halted session stays as it is while the host streams on. */
  lemma {:induction false} HaltedRun(fw: Firmware, s: Session, img: Image, ticks: seq<nat>, m: nat, n: nat)
    requires Linked(fw) && Ok(s) && 0 < m <= n <= |ticks| && n <= FLASH_SIZE / HF2_PAGE_SIZE
    requires var p := Feed(fw, s, img, ticks, m); Halted(p) && p.cache.addr == NO_CACHE && Quiet(p.cache)
    ensures
      var r := Feed(fw, s, img, ticks, n);
      Halted(r) && r.cache.addr == NO_CACHE && Quiet(r.cache) && r.cache.chip == Feed(fw, s, img, ticks, m).cache.chip
  {
    hide HandleFlashWrite, Ticks;
    if n > m {
      HaltedRun(fw, s, img, ticks, m, n - 1);
      var p := Feed(fw, s, img, ticks, n - 1);
      TicksUncached(p.cache, ticks[n - 1]);
      TicksOnlyFlush(p.cache, ticks[n - 1]);
      NothingAfterChange(fw, p.(cache := Ticks(p.cache, ticks[n - 1])), PageNo(n - 1), Block(img, n - 1));
    }
  }

  /** A changed bootloader, streamed through its first application page and any number of pages more: staged whole, with
      the copier behind it, and everything in flash. */
  lemma ChangedSession(fw: Firmware, s: Session, img: Image, ticks: seq<nat>, n: nat)
    requires Linked(fw) && Fresh(fw, s) && StagingFits(fw, img) && CopierFits(fw, img, OwnBase(fw, img))
    requires !SameBootloader(fw, s.cache.chip.flash, img)
    requires n <= |ticks| && n <= FLASH_SIZE / HF2_PAGE_SIZE && ImageApp(fw, img) < FLASH_BASE + HF2_PAGE_SIZE * n
    ensures
      var r := Feed(fw, s, img, ticks, n);
      Halted(r) && r.cache.addr == NO_CACHE && Quiet(r.cache)
      && r.cache.chip.flash == ReadyImage(fw, s.cache.chip.flash, img, OwnBase(fw, img))
  {
    hide HandleFlashWrite, Staging, Safe, SameBootloader, ReadyImage, Halted, Quiet, RunningTable, NoStaleTable, Phase;
    var f := s.cache.chip.flash;
    var k := FirstAppPage(fw, img);
    SessionPhase(fw, s, img, ticks, k);
    StagingAt(fw, f, img, Feed(fw, s, img, ticks, k), k);
    ChangedPacket(fw, f, img, Feed(fw, s, img, ticks, k), k, ticks[k]);
    HaltedRun(fw, s, img, ticks, k + 1, n);
  }

  lemma FirstAppPage(fw: Firmware, img: Image) returns (k: nat)
    requires Linked(fw) && StagingFits(fw, img)
    ensures k < FLASH_SIZE / HF2_PAGE_SIZE && PageNo(k) == ImageApp(fw, img)
  {
    hide TableIn, Window, PageAddress;
    PageAligned(ImageTable(fw, img).application);
    k := (ImageApp(fw, img) - FLASH_BASE) / HF2_PAGE_SIZE;
    assert ImageApp(fw, img) - FLASH_BASE == HF2_PAGE_SIZE * (4 * ((ImageApp(fw, img) - FLASH_BASE) / FLASH_PAGE_SIZE));
  }

  lemma StagingAt(fw: Firmware, f: Image, img: Image, s: Session, k: nat)
    requires Linked(fw) && Phase(fw, f, img, s, k) && FLASH_BASE + HF2_PAGE_SIZE * k <= StagingEnd(fw, img)
    ensures Staging(fw, f, img, s, k)
  {
  }

  lemma StagedWhole(fw: Firmware, k: nat)
    requires Linked(fw) && AppOffset(fw) + HF2_PAGE_SIZE * k + FLASH_PAGE_SIZE < FLASH_SIZE
    ensures StagedLen(fw, k) == HF2_PAGE_SIZE * k
  {
  }

  /** Where handle_flash_write writes, the block stays in one page; where it compares, in flash. */
  lemma PacketPlaced(fw: Firmware, s: Session, target: int)
    requires Linked(fw) && Ok(s) && (Advertised(target) || Handled(fw, s, target))
    ensures 0 <= target < 0x1_0000_0000
    ensures
      var s1 := Recognise(fw, s, target);
      var dst := Destination(fw, s1.newApp, target);
      && s1.newApp % FLASH_PAGE_SIZE == 0 && (!s1.changed && s1.found && target == s1.newApp ==> InFlash(target))
      && (!s1.changed ==> (dst < 0x8000_0000 && dst % HF2_PAGE_SIZE == 0) || BlockFits(dst))
      && dst == if target < s1.newApp then Wrap(target + (fw.app - FLASH_BASE)) else target
  {
    hide Recognise, BlockFits;
    PageBlocks(Recognise(fw, s, target).newApp);
  }

  lemma PageBlocks(a: int)
    requires a % FLASH_PAGE_SIZE == 0
    ensures a % HF2_PAGE_SIZE == 0
  {
    MultipleOf(4 * (a / FLASH_PAGE_SIZE));
  }

  lemma MultipleOf(q: int)
    ensures HF2_PAGE_SIZE * q % HF2_PAGE_SIZE == 0
  {
  }

  /** handle_flash_write case by case. */
  lemma PacketCases(fw: Firmware, s: Session, target: int, data: seq<Byte>)
    requires Linked(fw) && Ok(s) && |data| == HF2_PAGE_SIZE && (Advertised(target) || Handled(fw, s, target))
    requires
      var s1 := Recognise(fw, s, target);
      var dst := Destination(fw, s1.newApp, target);
      && (!s1.changed && s1.found && target == s1.newApp ==> InFlash(target))
      && (!s1.changed ==> (dst < 0x8000_0000 && dst % HF2_PAGE_SIZE == 0) || BlockFits(dst))
    ensures
      var s1 := Recognise(fw, s, target);
      var dst := Destination(fw, s1.newApp, target);
      HandleFlashWrite(fw, s, target, data) ==
        if s1.changed then s1
        else if s1.found && target == s1.newApp then
          var (c, changed) := BootloaderUpdate(fw, Flush(s1.cache), s1.newBootSize, s1.newBaseSize, target);
          s1.(cache := if changed then c else WriteBlock(c, dst, data), changed := changed)
        else s1.(cache := WriteBlock(s1.cache, dst, data))
  {
    hide Recognise, BlockFits, BootloaderUpdate, WriteBlock, Flush;
  }

  // ---------- the mutable session ----------

  class FlashSession {
    const fw: Firmware
    const fat: FlashCache
    var found: bool
    var newApp: Word
    var newBootSize: Word
    var newBaseSize: Word
    var changed: bool

    ghost function Repr(): set<object> {
      {this} + fat.Repr()
    }

    ghost predicate Valid()
      reads Repr()
    {
      this !in fat.Repr() && fat.Valid() && Linked(fw) && newApp % FLASH_PAGE_SIZE == 0
    }

    ghost function Value(): (s: Session)
      requires Valid()
      reads Repr()
      ensures Ok(s)
    {
      Session(fat.Value(), found, newApp, newBootSize, newBaseSize, changed)
    }

    constructor (fw: Firmware, fat: FlashCache)
      requires Linked(fw) && fat.Valid()
      ensures Valid() && this.fw == fw && this.fat == fat && Value() == Session(fat.Value(), false, 0, 0, 0, false)
    {
      this.fw := fw;
      this.fat := fat;
      found, newApp, newBootSize, newBaseSize, changed := false, 0, 0, 0, false;
    }

    method ReadByte(a: int) returns (b: Byte)
      requires Valid()
      ensures b == FlashByte(fat.Value().chip.flash, a)
    {
      if InFlash(a) { return fat.loader.chip.cells[a - FLASH_BASE]; }
      return OPEN_BUS;
    }

    /** memcmp of the staged with the running bootloader. */
    method Compare(size: Word) returns (different: bool)
      requires Valid()
      ensures different == Differs(fat.Value().chip.flash, fw.app, size)
    {
      var a := FLASH_BASE;
      while a < FLASH_BASE + size
        invariant FLASH_BASE <= a <= FLASH_BASE + size
        invariant forall b :: FLASH_BASE <= b < a ==>
          FlashByte(fat.Value().chip.flash, b) == FlashByte(fat.Value().chip.flash, b + (fw.app - FLASH_BASE))
      {
        var x := ReadByte(a);
        var y := ReadByte(a + (fw.app - FLASH_BASE));
        if x != y { return true; }
        a := a + 1;
      }
      different := false;
    }

    method HandleBootloaderUpdate(bootSize: Word, baseSize: Word, target: int) returns (update: bool)
      requires Valid() && InFlash(target) && target % FLASH_PAGE_SIZE == 0
      modifies fat.Repr()
      ensures Valid() && (fat.Value(), update) == BootloaderUpdate(fw, old(fat.Value()), bootSize, baseSize, target)
    {
      hide Differs, FlashWrite, FlushedChip;
      update := Compare(bootSize);
      if update {
        fat.WriteToFlash(target + (fw.app - FLASH_BASE), Rom(fw.app), ToInt(baseSize));
        fat.FlashFlush();
      }
    }

    /** (Re)initialises on the first page, then looks for the staged base vector table. */
    method FindVector(target: int)
      requires Valid()
      modifies this
      ensures Valid() && Value() == Recognise(fw, old(Value()), target)
    {
      hide PageAddress, Wrap, TableIn;
      PageAligned(fw.app);
      if newApp == 0 || target == FLASH_BASE {
        found, changed := false, false;
        newApp := PageAddress(fw.app);
        newBootSize, newBaseSize := Wrap(fw.app - FLASH_BASE), Wrap(fw.baseEnd - FLASH_BASE);
      }
      var at := fw.app - FLASH_BASE + fw.vt;
      var w := fat.loader.chip.cells[at..at + TABLE_SIZE];
      assert w == Window(fat.Value().chip.flash, fw.app, fw.vt);
      if !found && ValidTable(TableIn(w)) {
        found := true;
        PageAligned(TableIn(w).application);
        newApp := PageAddress(TableIn(w).application);
        newBootSize := Wrap(newApp - FLASH_BASE);
        newBaseSize := Wrap(TableIn(w).baseEnd - FLASH_BASE);
      }
    }

    method HandleFlashWritePacket(target0: int, data: seq<Byte>)
      requires Valid() && |data| == HF2_PAGE_SIZE && (Advertised(target0) || Handled(fw, Value(), target0))
      modifies Repr()
      ensures Valid() && Value() == HandleFlashWrite(fw, old(Value()), target0, data)
    {
      hide Recognise, BootloaderUpdate, WriteBlock, FlushedChip, PageAddress, BlockFits, ValidFlashAddr, Wrap,
           HandleFlashWrite, Handled;
      PacketPlaced(fw, Value(), target0);
      PacketCases(fw, Value(), target0, data);
      var target := target0;
      FindVector(target);
      if target < newApp {
        target := Wrap(target + (fw.app - FLASH_BASE));
      } else if found && target == newApp && !changed {
        fat.FlashFlush();
        changed := HandleBootloaderUpdate(newBootSize, newBaseSize, target);
      }
      if !changed {
        WriteIfValid(target, data);
      }
    }

    /** flash_write of the block, if VALID_FLASH_ADDR holds. */
    method WriteIfValid(dst: int, data: seq<Byte>)
      requires Valid() && |data| == HF2_PAGE_SIZE && 0 <= dst
      requires (dst < 0x8000_0000 && dst % HF2_PAGE_SIZE == 0) || BlockFits(dst)
      modifies fat.Repr()
      ensures Valid() && fat.Value() == WriteBlock(old(fat.Value()), dst, data)
    {
      hide FlashWrite;
      if ValidFlashAddr(dst) {
        OneBlock(dst);
        fat.WriteToFlash(dst, Packet(data), HF2_PAGE_SIZE);
      }
    }
  }

  /** A 256-byte aligned block stays within one page. */
  lemma OneBlock(a: int)
    requires ValidFlashAddr(a) && ((a < 0x8000_0000 && a % HF2_PAGE_SIZE == 0) || BlockFits(a))
    ensures a + HF2_PAGE_SIZE < 0x1_0000_0000 && OneOrAligned(a, HF2_PAGE_SIZE)
  {
  }
}
