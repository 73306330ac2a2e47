// baseloader_fetch and bootloader.c's prepare_baseloader: locating the staged bootloader after the restart and
// copying it down.

module Update {
  import opened Platform
  import opened FlashHardware
  import opened Baseloader
  import opened PageCache
  import opened Hf2Flashing
  import opened Hf2Safety
  import opened Hf2Install

  /** baseloader_fetch: the copier's address and parameters, or the error code with base_para.fail. */
  datatype Fetched =
    | Found(copier: int, dest: int, src: int, byteCount: Word)
    | NotFound(code: int, fail: Word)

  /** The size of the staged bootloader according to the table at the application start. */
  function StagedSize(fw: Firmware, f: Image): Word
    requires Linked(fw)
  {
    Wrap(PageAddress(TableIn(Window(f, fw.app, fw.vt)).application) - FLASH_BASE)
  }

  /** Flash is also visible at address 0. */
  function Unalias(a: Word): Word {
    if a < FLASH_SIZE then a + FLASH_BASE else a
  }

  /** IS_VALID_BASE_VECTOR_TABLE for any page address; pages outside flash hold no table. */
  predicate TableAt(fw: Firmware, f: Image, page: Word)
    requires Linked(fw)
  {
    PageInFlash(Unalias(page)) && ValidTable(TableIn(Window(f, Unalias(page), fw.vt)))
  }

  /** baseloader_fetch. */
  function Fetch(fw: Firmware, f: Image): (r: Fetched)
    requires Linked(fw)
    ensures r.Found? ==> r.dest == FLASH_BASE && r.src == fw.app
  {
    if !TableAt(fw, f, fw.app) then NotFound(-2, fw.app)
    else
      var size := StagedSize(fw, f);
      if Wrap(fw.app + size + FLASH_PAGE_SIZE) >= FLASH_END then NotFound(-3, size)
      else
        var second := Wrap(fw.app + size);
        if !TableAt(fw, f, second) then NotFound(-4, second)
        else
          var copier := TableIn(Window(f, Unalias(second), fw.vt)).baseloader;
          Found(Wrap(copier - FLASH_BASE + second), FLASH_BASE, fw.app, size)
  }

  /** Exactly when nothing is found, with which code, and what is found otherwise: a table at the application start;
      room for the bootloader it names and a page more; and a second table behind that bootloader, which gives the entry
      of the copier, moved to where it now is. All sums are of 32 bits, and flash is also visible from address 0. */
  lemma FetchIff(fw: Firmware, f: Image)
    requires Linked(fw)
    ensures
      var first := TableIn(Window(f, fw.app, fw.vt));
      var size := (first.application / 1024 * 1024 - 0x0800_0000) % 0x1_0000_0000;
      var page := (fw.app + size) % 0x1_0000_0000;
      var at := if page < 0x1_0000 then page + 0x0800_0000 else page;
      var r := Fetch(fw, f);
      && (r == NotFound(-2, fw.app) <==> !ValidTable(first))
      && (r == NotFound(-3, size) <==> ValidTable(first) && (page + 1024) % 0x1_0000_0000 >= 0x0801_0000)
      && (r.NotFound? ==> r.code in {-2, -3, -4})
      && (r.Found? ==> PageInFlash(at) && ValidTable(TableIn(Window(f, at, fw.vt))) && r.byteCount == size
                       && r.copier == (TableIn(Window(f, at, fw.vt)).baseloader - 0x0800_0000 + page) % 0x1_0000_0000)
      && ((ValidTable(first) && (page + 1024) % 0x1_0000_0000 < 0x0801_0000 && PageInFlash(at)
           && ValidTable(TableIn(Window(f, at, fw.vt)))) ==> r.Found?)
  {
    hide TableIn, Window;
    WrapSums(fw.app + StagedSize(fw, f), FLASH_PAGE_SIZE);
  }

  lemma WrapSums(x: int, y: int)
    ensures Wrap(Wrap(x) + y) == Wrap(x + y)
  {
    var q := x / 0x1_0000_0000;
    assert x + y == Wrap(x) + y + 0x1_0000_0000 * q;
    WrapTurns(Wrap(x) + y, q);
  }

  lemma WrapTurns(x: int, q: int)
    ensures Wrap(x + 0x1_0000_0000 * q) == Wrap(x)
  {
  }

  /** How prepare_baseloader ends: nothing to run, refused by the preview, or the real copy was run. */
  datatype Prepared = NothingToRun | Refused(result: int) | Ran(para: Para, outcome: Outcome)

  /** The parameters prepare_baseloader sets from what was fetched. */
  function CopyPara(found: Fetched, preview: bool): Para
    requires found.Found? && 0 <= found.dest < 0x1_0000_0000 && 0 <= found.src < 0x1_0000_0000
  {
    Para(found.dest, found.src, found.byteCount, true, preview)
  }

  lemma AppEven(fw: Firmware)
    requires Linked(fw)
    ensures fw.app % 2 == 0
  {
    assert fw.app == 2 * (FLASH_PAGE_SIZE / 2 * (fw.app / FLASH_PAGE_SIZE));
  }

  /** prepare_baseloader: chip afterwards and how it ended. The copier called is the staged one, which is taken to
      behave as baseloader_start. */
  function Prepare(fw: Firmware, c: Chip, ram: Ram): (r: (Chip, Prepared))
    requires Linked(fw)
  {
    var found := Fetch(fw, c.flash);
    if found.NotFound? || found.copier == 0 then (c, NothingToRun)
    else
      AppEven(fw);
      var preview := Start(CopyPara(found, true), c, ram);
      if preview.result <= 0 then (preview.chip, Refused(preview.result))
      else
        var run := Start(CopyPara(found, false), preview.chip, ram);
        (run.chip, Ran(CopyPara(found, false), run))
  }

  /** The exits of prepare_baseloader: nothing is run exactly if nothing was found or the copier's entry is 0; the
      preview refuses, or the copy is run, with a restart asked for, with what was found. */
  lemma PrepareExits(fw: Firmware, c: Chip, ram: Ram)
    requires Linked(fw)
    ensures
      var found := Fetch(fw, c.flash);
      var how := Prepare(fw, c, ram).1;
      && (how.NothingToRun? <==> found.NotFound? || found.copier == 0)
      && (how.Refused? ==> how.result <= 0)
      && (how.Ran? ==> how.para == Para(FLASH_BASE, fw.app, found.byteCount, true, false))
  {
    hide Start, Fetch;
  }

  // ---------- what any update run may touch ----------

  lemma StagedSizeWhole(fw: Firmware, f: Image)
    requires Linked(fw)
    ensures StagedSize(fw, f) % FLASH_PAGE_SIZE == 0
  {
    hide Window, TableIn, PageAddress;
    var a := PageAddress(TableIn(Window(f, fw.app, fw.vt)).application);
    PageAligned(TableIn(Window(f, fw.app, fw.vt)).application);
    WrapWhole(a - FLASH_BASE);
  }

  lemma WrapWhole(x: int)
    requires x % FLASH_PAGE_SIZE == 0
    ensures Wrap(x) % FLASH_PAGE_SIZE == 0
  {
    var q := x / 0x1_0000_0000;
    assert Wrap(x) == x - FLASH_PAGE_SIZE * (0x40_0000 * q);
    WholeMinus(x, 0x40_0000 * q);
  }

  lemma WholeMinus(x: int, k: int)
    requires x % FLASH_PAGE_SIZE == 0
    ensures (x - FLASH_PAGE_SIZE * k) % FLASH_PAGE_SIZE == 0
  {
  }

  /** No erase without room: on any hardware and any flash contents, flash changes only if the whole copy fits. */
  lemma NeverErasesUnlessFits(fw: Firmware, c: Chip, ram: Ram)
    requires Linked(fw)
    ensures
      var (c', how) := Prepare(fw, c, ram);
      && (!how.Ran? ==> c' == c)
      && (how.Ran? ==> FLASH_BASE + how.para.byteCount <= FLASH_END && 0 < how.para.byteCount)
  {
    hide Start, Fetch;
    var found := Fetch(fw, c.flash);
    FetchShape(fw, c.flash);
    AppEven(fw);
    if found.Found? {
      PreviewTouchesNothing(CopyPara(found, true), c, ram);
      if Start(CopyPara(found, true), c, ram).result > 0 {
        PreviewMeansFits(CopyPara(found, true), c, ram);
      }
    }
  }

  lemma FetchShape(fw: Firmware, f: Image)
    requires Linked(fw)
    ensures
      var found := Fetch(fw, f);
      found.Found? ==> found.dest == FLASH_BASE && found.src == fw.app && found.byteCount % FLASH_PAGE_SIZE == 0 &&
                       found.byteCount == StagedSize(fw, f)
  {
    hide StagedSize, TableAt, Window, TableIn;
    StagedSizeWhole(fw, f);
  }

  lemma PreviewTouchesNothing(p: Para, c: Chip, ram: Ram)
    requires Aligned(p) && p.preview
    ensures Start(p, c, ram).chip == c && !Start(p, c, ram).reset
  {
    hide CopyLoop;
    if Validate(p) == 0 {
      PreviewLoop(c, ram, p.dest, p.src, p.byteCount / 2, 0, 0);
    }
  }

  /** On any hardware and any flash contents, every erase and program of an update run lies below FLASH_BASE +
      byteCount. */
  lemma CopierSurvives(fw: Firmware, c: Chip, ram: Ram)
    requires Linked(fw)
    ensures
      var (c', how) := Prepare(fw, c, ram);
      how.Ran? ==> Confined(c, c', FLASH_BASE, FLASH_BASE + how.para.byteCount)
  {
    hide Start, Fetch, Confined;
    var found := Fetch(fw, c.flash);
    FetchShape(fw, c.flash);
    if found.Found? {
      PreviewTouchesNothing(CopyPara(found, true), c, ram);
      StartConfined(CopyPara(found, false), c, ram);
      WholePages(found.byteCount);
    }
  }

  lemma WholePages(size: int)
    requires size % FLASH_PAGE_SIZE == 0
    ensures size / 2 * 2 == size && PageCeiling(FLASH_BASE + size) == FLASH_BASE + size
      && PageAddress(FLASH_BASE) == FLASH_BASE
  {
    hide PageCeiling, PageAddress;
    HalfOf(size);
    WholeSum(size / FLASH_PAGE_SIZE);
    CeilingBounds(FLASH_BASE + size);
    AlignedPage(FLASH_BASE);
  }

  lemma HalfOf(size: int)
    requires size % FLASH_PAGE_SIZE == 0
    ensures size / 2 * 2 == size && size == FLASH_PAGE_SIZE * (size / FLASH_PAGE_SIZE)
  {
    var q := size / FLASH_PAGE_SIZE;
    assert size == FLASH_PAGE_SIZE * q;
    TwiceHalved(FLASH_PAGE_SIZE / 2 * q);
  }

  lemma TwiceHalved(k: int)
    ensures 2 * k / 2 == k
  {
  }

  lemma WholeSum(q: int)
    ensures (FLASH_BASE + FLASH_PAGE_SIZE * q) % FLASH_PAGE_SIZE == 0
  {
    assert FLASH_BASE + FLASH_PAGE_SIZE * q == FLASH_PAGE_SIZE * (FLASH_BASE / FLASH_PAGE_SIZE + q);
    QuotientIs(FLASH_BASE + FLASH_PAGE_SIZE * q, FLASH_BASE / FLASH_PAGE_SIZE + q, 0);
  }

  // ---------- end to end ----------

  /** The image's table points at a copier, and all of it lies inside the `baseSize` bytes that are copied. */
  predicate CopierInside(fw: Firmware, img: Image, baseSize: int)
    requires Linked(fw)
  {
    FLASH_BASE <= ImageTable(fw, img).baseloader < ImageTable(fw, img).baseEnd <= FLASH_BASE + baseSize
  }

  /** The image's table can be read both at the application start and behind the staged bootloader. */
  lemma ReadyWindows(fw: Firmware, f: Image, img: Image, baseSize: int)
    requires Linked(fw) && FitsForUpdate(fw, img, baseSize)
    ensures PageInFlash(SecondPage(fw, img))
    ensures Window(ReadyImage(fw, f, img, baseSize), fw.app, fw.vt) == Window(img, FLASH_BASE, fw.vt)
    ensures Window(ReadyImage(fw, f, img, baseSize), SecondPage(fw, img), fw.vt) == Window(img, FLASH_BASE, fw.vt)
  {
    hide ImageTable, TableIn, PageAddress, Overlay, Window;
    PageAligned(ImageTable(fw, img).application);
    var size := ImageApp(fw, img) - FLASH_BASE;
    WholePlus(ImageApp(fw, img), -FLASH_BASE);
    WindowBehind(fw, StagedImage(fw, f, img, size), img, size, baseSize);
    WindowBelow(fw, StagedImage(fw, f, img, size), img[..baseSize], size);
    WindowBehind(fw, f, img, 0, size);
  }

  /** Where the copier, and with it the second table, is written. */
  function SecondPage(fw: Firmware, img: Image): int
    requires Linked(fw)
  {
    fw.app + ImageApp(fw, img) - FLASH_BASE
  }

  lemma WindowBehind(fw: Firmware, f: Image, img: Image, size: nat, len: nat)
    requires Linked(fw) && size % FLASH_PAGE_SIZE == 0 && AppOffset(fw) + size + FLASH_PAGE_SIZE <= FLASH_SIZE
    requires AppOffset(fw) + size + len <= FLASH_SIZE && fw.vt + TABLE_SIZE <= len
    ensures PageInFlash(fw.app + size)
    ensures Window(Overlay(f, AppOffset(fw) + size, img[..len]), fw.app + size, fw.vt) == Window(img, FLASH_BASE, fw.vt)
  {
    hide Overlay;
    WholePlus(fw.app, size);
    OverlayWindow(f, AppOffset(fw) + size, img[..len], fw.vt, TABLE_SIZE);
    assert img[..len] == img[0..0 + len];
    SliceOfSlice(img, 0, len, fw.vt, TABLE_SIZE);
  }

  lemma WholePlus(a: int, b: int)
    requires a % FLASH_PAGE_SIZE == 0 && b % FLASH_PAGE_SIZE == 0
    ensures (a + b) % FLASH_PAGE_SIZE == 0
  {
    var p, q := a / FLASH_PAGE_SIZE, b / FLASH_PAGE_SIZE;
    QuotientIs(a + b, p + q, 0);
  }

  lemma WindowBelow(fw: Firmware, f: Image, data: seq<Byte>, size: nat)
    requires Linked(fw) && FLASH_PAGE_SIZE <= size && AppOffset(fw) + size + |data| <= FLASH_SIZE
    ensures Window(Overlay(f, AppOffset(fw) + size, data), fw.app, fw.vt) == Window(f, fw.app, fw.vt)
  {
    var g, o := Overlay(f, AppOffset(fw) + size, data), AppOffset(fw) + fw.vt;
    assert g[o..o + TABLE_SIZE] == f[o..o + TABLE_SIZE];
  }

  lemma OverlayWindow(f: Image, at: nat, data: seq<Byte>, from: nat, len: nat)
    requires at + |data| <= |f| && from + len <= |data|
    ensures Overlay(f, at, data)[at + from..at + from + len] == data[from..from + len]
  {
  }

  lemma ReadyBootloader(fw: Firmware, f: Image, img: Image, baseSize: int)
    requires Linked(fw) && FitsForUpdate(fw, img, baseSize)
    ensures forall i :: 0 <= i < ImageApp(fw, img) - FLASH_BASE ==>
      ReadyImage(fw, f, img, baseSize)[AppOffset(fw) + i] == img[i]
  {
    hide ImageTable, TableIn, PageAddress;
  }

  lemma FetchFrom(fw: Firmware, g: Image, size: Word, copier: Word)
    requires Linked(fw) && fw.app + size + FLASH_PAGE_SIZE < FLASH_END && PageInFlash(fw.app + size)
    requires TableAt(fw, g, fw.app) && StagedSize(fw, g) == size && TableAt(fw, g, fw.app + size)
    requires TableIn(Window(g, fw.app + size, fw.vt)).baseloader == copier && InFlash(copier)
    ensures Fetch(fw, g) == Found(copier - FLASH_BASE + fw.app + size, FLASH_BASE, fw.app, size)
  {
    hide TableAt, StagedSize, TableIn, Window;
  }

  /** After the restart everything is found again from flash alone: destination, source and size are exactly the flash
      base, the old application start and the new bootloader's size. */
  lemma FetchFinds(fw: Firmware, f: Image, img: Image, baseSize: int)
    requires Linked(fw) && FitsForUpdate(fw, img, baseSize) && CopierInside(fw, img, baseSize)
    ensures
      var size := ImageApp(fw, img) - FLASH_BASE;
      var copier := ImageTable(fw, img).baseloader - FLASH_BASE + fw.app + size;
      Fetch(fw, ReadyImage(fw, f, img, baseSize)) == Found(copier, FLASH_BASE, fw.app, size)
  {
    hide ReadyImage, Window, TableIn, PageAddress, Fetch;
    ReadyWindows(fw, f, img, baseSize);
    FetchFrom(fw, ReadyImage(fw, f, img, baseSize), ImageApp(fw, img) - FLASH_BASE, ImageTable(fw, img).baseloader);
  }

  /** The copier never destroys itself: on any hardware, what is run lies in the page behind the staged bootloader or
      above, that page starts at or above the end of everything the update erases or programs, and from there on flash
      stays. */
  lemma CopierKept(fw: Firmware, f: Image, img: Image, baseSize: int, c: Chip, ram: Ram)
    requires Linked(fw) && FitsForUpdate(fw, img, baseSize) && CopierInside(fw, img, baseSize)
    requires c.flash == ReadyImage(fw, f, img, baseSize)
    ensures
      var found := Fetch(fw, c.flash);
      && found.Found? && FLASH_BASE + found.byteCount <= SecondPage(fw, img) <= found.copier
      && Prepare(fw, c, ram).0.flash[SecondPage(fw, img) - FLASH_BASE..] == c.flash[SecondPage(fw, img) - FLASH_BASE..]
  {
    hide Start, Fetch, ReadyImage, Confined, Prepare, ImageTable, PageAddress;
    FetchFinds(fw, f, img, baseSize);
    CopierAddress(fw, img, baseSize);
    NeverErasesUnlessFits(fw, c, ram);
    CopierSurvives(fw, c, ram);
    var how := Prepare(fw, c, ram).1;
    if how.Ran? {
      RanAsFetched(fw, c, ram);
      ConfinedImage(c, Prepare(fw, c, ram).0, FLASH_BASE, FLASH_BASE + how.para.byteCount);
    }
  }

  lemma RanAsFetched(fw: Firmware, c: Chip, ram: Ram)
    requires Linked(fw) && Prepare(fw, c, ram).1.Ran?
    ensures Fetch(fw, c.flash).Found? && Prepare(fw, c, ram).1.para.byteCount == Fetch(fw, c.flash).byteCount
  {
    hide Start, Fetch;
  }

  /** Prepare when the fetch succeeds and the preview allows it. */
  lemma PrepareRuns(fw: Firmware, c: Chip, ram: Ram, found: Fetched)
    requires Linked(fw) && Fetch(fw, c.flash) == found && found.Found? && found.copier != 0
      && Aligned(CopyPara(found, true))
    requires Start(CopyPara(found, true), c, ram).result > 0
    ensures
      var run := Start(CopyPara(found, false), c, ram);
      Prepare(fw, c, ram) == (run.chip, Ran(CopyPara(found, false), run))
  {
    hide Start, Fetch;
    PreviewTouchesNothing(CopyPara(found, true), c, ram);
  }

  /** The copy that was staged is run, whatever the hardware does: it restarts the device exactly if it reports success,
      and then with the new bootloader whole; above it flash stays in any case. Without timeouts it does restart. */
  lemma CopyDown(fw: Firmware, f: Image, img: Image, baseSize: int, c: Chip, ram: Ram)
    requires Linked(fw) && FitsForUpdate(fw, img, baseSize) && CopierInside(fw, img, baseSize)
    requires c.flash == ReadyImage(fw, f, img, baseSize)
    ensures
      var size := ImageApp(fw, img) - FLASH_BASE;
      var (c', how) := Prepare(fw, c, ram);
      && how.Ran? && (how.outcome.reset <==> how.outcome.result > 0) && (Healthy(c) ==> how.outcome.reset)
      && (how.outcome.reset ==> how.outcome.result == size && c'.flash[..size] == img[..size])
      && c'.flash[size..] == c.flash[size..]
  {
    hide Start, Fetch, ReadyImage, Confined, Moved, Prepare, ImageTable, PageAddress, CopierInside;
    var size := ImageApp(fw, img) - FLASH_BASE;
    FetchFinds(fw, f, img, baseSize);
    CopierAddress(fw, img, baseSize);
    FetchShape(fw, c.flash);
    AppEven(fw);
    var found := Fetch(fw, c.flash);
    var p := CopyPara(found, false);
    CopyResult(p, c, ram);
    assert p.(preview := true) == CopyPara(found, true);
    PrepareRuns(fw, c, ram, found);
    CopierSurvives(fw, c, ram);
    ConfinedImage(c, Start(p, c, ram).chip, FLASH_BASE, FLASH_BASE + size);
    if Start(p, c, ram).reset {
      StartMoves(p, c, ram);
      ReadyBootloader(fw, f, img, baseSize);
      MovedBytes(Start(p, c, ram).chip.flash, c.flash, img, ram, fw, size);
    }
  }

  lemma CopierAddress(fw: Firmware, img: Image, baseSize: int)
    requires Linked(fw) && CopierInside(fw, img, baseSize)
    ensures ImageTable(fw, img).baseloader >= FLASH_BASE
  {
  }

  /** A copy that fits restarts the device with the full count, or returns a timeout code. */
  lemma CopyResult(p: Para, c: Chip, ram: Ram)
    requires Aligned(p) && !p.preview && p.restart && p.dest == FLASH_BASE
    requires FLASH_BASE <= p.src && p.src + p.byteCount < FLASH_END && p.byteCount % 2 == 0
    ensures Start(p.(preview := true), c, ram).result == p.byteCount
    ensures
      var o := Start(p, c, ram);
      && (if o.reset then o.result == p.byteCount else o.result < 0)
      && (Healthy(c) ==> o.reset)
  {
    hide CopyLoop, Primed;
    PreviewLoop(c, ram, p.dest, p.src, p.byteCount / 2, 0, 0);
    StartsPrimed(c.flash, p.dest);
    CopyExit(c, ram, p.dest, p.src, p.byteCount / 2, 0, 0);
  }

  lemma MovedBytes(g: Image, f: Image, img: Image, ram: Ram, fw: Firmware, size: nat)
    requires Linked(fw) && AppOffset(fw) + size <= FLASH_SIZE && Moved(g, f, ram, FLASH_BASE, fw.app, size)
    requires forall i :: 0 <= i < size ==> f[AppOffset(fw) + i] == img[i]
    ensures g[..size] == img[..size]
  {
    forall i | 0 <= i < size
      ensures g[i] == img[i]
    {
      assert Peek(g, ram, FLASH_BASE + i) == Peek(f, ram, FLASH_BASE + i + (fw.app - FLASH_BASE));
      assert f[AppOffset(fw) + i] == img[i];
    }
  }

  lemma QuietHealthy(c: Cache)
    requires Quiet(c)
    ensures Healthy(c.chip)
  {
  }

  // ---------- over what an update to the same size left behind ----------

  /** No table is left over at the old application start, or one that names just that start, as the image does. */
  predicate Updatable(fw: Firmware, f: Image, img: Image)
    requires Linked(fw)
  {
    NoStaleTable(fw, f) || StaleApp(fw, f) == fw.app == ImageApp(fw, img)
  }

  /** How much is written behind the staged bootloader: a leftover table decides, not the image's own. */
  function CopierSize(fw: Firmware, f: Image, img: Image): int
    requires Linked(fw)
  {
    if NoStaleTable(fw, f) then OwnBase(fw, img) else StaleBase(fw, f)
  }

  /** Over a leftover table that names the application start, a changed bootloader of the same size is staged whole; the
      copier is written behind it with the length the leftover table gives, if that fits. */
  lemma LeftoverSession(fw: Firmware, s: Session, img: Image, ticks: seq<nat>, n: nat)
    requires Linked(fw) && Ready(fw, s) && !NoStaleTable(fw, s.cache.chip.flash)
    requires Updatable(fw, s.cache.chip.flash, img) && !SameBootloader(fw, s.cache.chip.flash, img)
    requires StagingFits(fw, img) && StaleBase(fw, s.cache.chip.flash) <= AppOffset(fw)
    requires n <= |ticks| && n <= NEVER && fw.app < FLASH_BASE + HF2_PAGE_SIZE * n
    ensures
      var f := s.cache.chip.flash;
      var r := Feed(fw, s, img, ticks, n);
      && Halted(r) && r.cache.addr == NO_CACHE && Quiet(r.cache)
      && r.cache.chip.flash == if CopierFits(fw, img, StaleBase(fw, f)) then ReadyImage(fw, f, img, StaleBase(fw, f))
                               else StagedImage(fw, f, img, AppOffset(fw))
  {
    hide HandleFlashWrite, StaleStaging, SameBootloader, ReadyImage, Halted, Quiet, RunningTable, NoStaleTable,
         StaleApp, StaleBase, StagedImage, CopierFits;
    var f := s.cache.chip.flash;
    var k := FirstAppPage(fw, img);
    StaleRun(fw, s, img, ticks, k);
    LeftoverPacket(fw, f, img, Feed(fw, s, img, ticks, k), k, ticks[k]);
    HaltedRun(fw, s, img, ticks, k + 1, n);
  }

  lemma LeftoverPacket(fw: Firmware, f: Image, img: Image, s: Session, k: nat, n: nat)
    requires Linked(fw) && k < NEVER && StaleStaging(fw, f, img, s, k) && !NoStaleTable(fw, f)
    requires StaleApp(fw, f) == fw.app == ImageApp(fw, img) == PageNo(k) && StagingFits(fw, img)
    requires RunningTable(fw, f) && !SameBootloader(fw, f, img) && StaleBase(fw, f) <= AppOffset(fw)
    ensures
      var r := HandleFlashWrite(fw, s.(cache := Ticks(s.cache, n)), PageNo(k), Block(img, k));
      && Halted(r) && r.cache.addr == NO_CACHE && Quiet(r.cache)
      && r.cache.chip.flash == if CopierFits(fw, img, StaleBase(fw, f)) then ReadyImage(fw, f, img, StaleBase(fw, f))
                               else StagedImage(fw, f, img, AppOffset(fw))
  {
    hide HandleFlashWrite, StagedImage, StaleStaging, BootloaderUpdate, Differs, Flush, Ticks, ReadyImage,
         NoStaleTable, RunningTable, SameBootloader, PageAddress, TableIn, Window, View, StaleApp, StaleBase,
         CopierFits;
    StaleOk(fw, f, img, s, k);
    StagedWhole(fw, k);
    StaleFirstApp(fw, f, img, s, k, n);
    ChangedDiffers(fw, f, img, HF2_PAGE_SIZE * k);
    CopierWritten(fw, f, img, Flush(Ticks(s.cache, n)), StaleBase(fw, f));
  }

  lemma StaleOk(fw: Firmware, f: Image, img: Image, s: Session, k: nat)
    requires Linked(fw) && StaleStaging(fw, f, img, s, k)
    ensures Ok(s) && fw.app % FLASH_PAGE_SIZE == 0
  {
  }

  /** Either way the session ends ready for the copier. */
  lemma ReadySession(fw: Firmware, s: Session, img: Image, ticks: seq<nat>, n: nat)
    requires Linked(fw) && Ready(fw, s) && Updatable(fw, s.cache.chip.flash, img)
    requires StagingFits(fw, img) && CopierFits(fw, img, CopierSize(fw, s.cache.chip.flash, img))
    requires !SameBootloader(fw, s.cache.chip.flash, img)
    requires n <= |ticks| && n <= NEVER && ImageApp(fw, img) < FLASH_BASE + HF2_PAGE_SIZE * n
    ensures
      var f := s.cache.chip.flash;
      var r := Feed(fw, s, img, ticks, n);
      && Halted(r) && r.cache.addr == NO_CACHE && Quiet(r.cache)
      && r.cache.chip.flash == ReadyImage(fw, f, img, CopierSize(fw, f, img))
  {
    hide SameBootloader, ReadyImage, Halted, Quiet, RunningTable, NoStaleTable, StaleApp, StaleBase, StagingFits, Feed,
         ImageTable, PageAddress;
    if NoStaleTable(fw, s.cache.chip.flash) {
      ChangedSession(fw, s, img, ticks, n);
    } else {
      LeftoverSession(fw, s, img, ticks, n);
    }
  }

  /** Exactly when an update over a leftover table can be completed, if no table lies behind the staging yet: when the
      copier length of the leftover table covers the table and fits. */
  lemma LeftoverFoundIff(fw: Firmware, s: Session, img: Image, ticks: seq<nat>, n: nat)
    requires Linked(fw) && Ready(fw, s) && !NoStaleTable(fw, s.cache.chip.flash)
    requires Updatable(fw, s.cache.chip.flash, img) && !SameBootloader(fw, s.cache.chip.flash, img)
    requires StagingFits(fw, img) && StaleBase(fw, s.cache.chip.flash) <= AppOffset(fw)
    requires s.cache.chip.flash[2 * AppOffset(fw) + fw.vt + TABLE_SIZE - 1] == ERASED
    requires n <= |ticks| && n <= NEVER && fw.app < FLASH_BASE + HF2_PAGE_SIZE * n
    ensures
      var f := s.cache.chip.flash;
      Fetch(fw, Flush(Feed(fw, s, img, ticks, n).cache).chip.flash).Found? <==>
      fw.vt + TABLE_SIZE <= StaleBase(fw, f) && 2 * AppOffset(fw) + StaleBase(fw, f) < FLASH_SIZE
  {
    hide SameBootloader, ReadyImage, Quiet, RunningTable, NoStaleTable, StaleApp, StaleBase, Feed, Fetch,
         ImageTable, PageAddress, Window, StagedImage;
    var f, baseSize := s.cache.chip.flash, StaleBase(fw, s.cache.chip.flash);
    LeftoverSession(fw, s, img, ticks, n);
    var g := Feed(fw, s, img, ticks, n).cache.chip.flash;
    if FitsForUpdate(fw, img, baseSize) {
      FoundBehind(fw, f, img, baseSize);
    } else {
      StillErased(fw, f, img, baseSize);
      NotFoundBehind(fw, img, g);
    }
  }

  lemma FoundBehind(fw: Firmware, f: Image, img: Image, baseSize: int)
    requires Linked(fw) && FitsForUpdate(fw, img, baseSize)
    ensures Fetch(fw, ReadyImage(fw, f, img, baseSize)).Found?
  {
    hide ReadyImage, Window, TableIn, PageAddress;
    ReadyWindows(fw, f, img, baseSize);
  }

  lemma StillErased(fw: Firmware, f: Image, img: Image, baseSize: int)
    requires Linked(fw) && StagingFits(fw, img) && ImageApp(fw, img) == fw.app && 0 <= baseSize <= AppOffset(fw)
    requires f[2 * AppOffset(fw) + fw.vt + TABLE_SIZE - 1] == ERASED && !FitsForUpdate(fw, img, baseSize)
    ensures
      var g := if CopierFits(fw, img, baseSize) then ReadyImage(fw, f, img, baseSize)
               else StagedImage(fw, f, img, AppOffset(fw));
      && Window(g, fw.app, fw.vt) == Window(img, FLASH_BASE, fw.vt)
      && g[2 * AppOffset(fw) + fw.vt + TABLE_SIZE - 1] == ERASED
  {
    hide ImageTable, TableIn, PageAddress, Overlay, Window;
    var size := AppOffset(fw);
    WindowBehind(fw, f, img, 0, size);
    if CopierFits(fw, img, baseSize) {
      WindowBelow(fw, StagedImage(fw, f, img, size), img[..baseSize], size);
    }
  }

  lemma NotFoundBehind(fw: Firmware, img: Image, g: Image)
    requires Linked(fw) && StagingFits(fw, img) && ImageApp(fw, img) == fw.app
    requires Window(g, fw.app, fw.vt) == Window(img, FLASH_BASE, fw.vt)
    requires g[2 * AppOffset(fw) + fw.vt + TABLE_SIZE - 1] == ERASED
    ensures Fetch(fw, g).NotFound?
  {
    hide TableIn, PageAddress, Window;
    ErasedEnd(fw, g, fw.app + AppOffset(fw));
  }

  lemma ErasedEnd(fw: Firmware, g: Image, page: int)
    requires Linked(fw) && FLASH_BASE <= page && page + FLASH_PAGE_SIZE <= FLASH_END
    requires g[page - FLASH_BASE + fw.vt + TABLE_SIZE - 1] == ERASED
    ensures PageInFlash(page) ==> !ValidTable(TableIn(Window(g, page, fw.vt)))
  {
    if PageInFlash(page) {
      assert Window(g, page, fw.vt)[TABLE_SIZE - 1] == ERASED;
      LastByteErased(Window(g, page, fw.vt));
    }
  }

  lemma LastByteErased(w: seq<Byte>)
    requires |w| == TABLE_SIZE && w[TABLE_SIZE - 1] == ERASED
    ensures !ValidTable(TableIn(w))
  {
  }

  /** End to end: an image with a different bootloader that fits, streamed in order through its first application page
      and any number of pages more with the timer running, then the flush, the restart and the copy, in which any
      busy-waits may time out. The device is restarted again exactly if the copy reports success, and then the image's
      bootloader is at the flash base, byte for byte; everything from the new bootloader's end up is as staged. */
  lemma EndToEnd(fw: Firmware, s: Session, img: Image, ticks: seq<nat>, n: nat, waits: seq<bool>, ram: Ram)
    requires Linked(fw) && Ready(fw, s) && Updatable(fw, s.cache.chip.flash, img)
    requires FitsForUpdate(fw, img, CopierSize(fw, s.cache.chip.flash, img))
    requires CopierInside(fw, img, CopierSize(fw, s.cache.chip.flash, img))
    requires !SameBootloader(fw, s.cache.chip.flash, img)
    requires n <= |ticks| && n <= NEVER && ImageApp(fw, img) < FLASH_BASE + HF2_PAGE_SIZE * n
    ensures
      var size := ImageApp(fw, img) - FLASH_BASE;
      var f := s.cache.chip.flash;
      var r := Feed(fw, s, img, ticks, n);
      var c := Flush(r.cache).chip.(waits := waits);
      var (c', how) := Prepare(fw, c, ram);
      && r.changed && Fetch(fw, c.flash).Found?
      && Fetch(fw, c.flash).dest == FLASH_BASE && Fetch(fw, c.flash).src == fw.app
      && Fetch(fw, c.flash).byteCount == size
      && how.Ran? && (how.outcome.reset <==> how.outcome.result > 0) && (waits == [] ==> how.outcome.reset)
      && (how.outcome.reset ==> how.outcome.result == size && c'.flash[..size] == img[..size])
      && c'.flash[size..] == ReadyImage(fw, f, img, CopierSize(fw, f, img))[size..]
  {
    hide Prepare, ReadyImage, HandleFlashWrite, Fetch, SameBootloader, NoStaleTable, RunningTable, CopierInside,
         PageAddress, ImageTable, TwoPages, Quiet, Feed, CopierSize, Updatable;
    ReadySession(fw, s, img, ticks, n);
    var f, r := s.cache.chip.flash, Feed(fw, s, img, ticks, n);
    QuietHealthy(r.cache);
    FetchFinds(fw, f, img, CopierSize(fw, f, img));
    CopyDown(fw, f, img, CopierSize(fw, f, img), Flush(r.cache).chip.(waits := waits), ram);
  }

  // ---------- the two sessions of an upgrade ----------

  /** The firmware that runs once the image's bootloader has been copied down. */
  function Updated(fw: Firmware, img: Image): Firmware
    requires Linked(fw)
  {
    Firmware(ImageApp(fw, img), ImageTable(fw, img).baseEnd, fw.vt)
  }

  lemma UpdatedLinked(fw: Firmware, img: Image, baseSize: int)
    requires Linked(fw) && FitsForUpdate(fw, img, baseSize) && CopierInside(fw, img, baseSize)
    ensures Linked(Updated(fw, img)) && AppOffset(Updated(fw, img)) == ImageApp(fw, img) - FLASH_BASE
    ensures ImageTable(Updated(fw, img), img) == ImageTable(fw, img)
  {
    hide TableIn, Window, PageAddress;
    PageAligned(ImageTable(fw, img).application);
  }

  /** Flash after the update: the new bootloader, and above it what was staged. */
  function UpdatedImage(fw: Firmware, f: Image, img: Image, baseSize: int): (g: Image)
    requires Linked(fw) && FitsForUpdate(fw, img, baseSize)
  {
    Overlay(ReadyImage(fw, f, img, baseSize), 0, img[..ImageApp(fw, img) - FLASH_BASE])
  }

  lemma UpdatedBytes(g: Image, h: Image, img: Image, size: nat)
    requires size <= FLASH_SIZE && g[..size] == img[..size] && g[size..] == h[size..]
    ensures g == Overlay(h, 0, img[..size])
  {
    assert g == g[..size] + g[size..];
  }

  lemma UpdatedRuns(fw: Firmware, f: Image, img: Image, baseSize: int)
    requires Linked(fw) && FitsForUpdate(fw, img, baseSize) && CopierInside(fw, img, baseSize)
    requires Linked(Updated(fw, img))
    ensures SameBootloader(Updated(fw, img), UpdatedImage(fw, f, img, baseSize), img)
    ensures RunningTable(Updated(fw, img), UpdatedImage(fw, f, img, baseSize))
  {
    hide TableIn, PageAddress, ReadyImage;
    UpdatedLinked(fw, img, baseSize);
    var g, size := UpdatedImage(fw, f, img, baseSize), ImageApp(fw, img) - FLASH_BASE;
    PrefixAgrees(img, g, size);
    assert Window(g, FLASH_BASE, fw.vt) == Window(img, FLASH_BASE, fw.vt) by {
      assert g[..size][fw.vt..fw.vt + TABLE_SIZE] == img[..size][fw.vt..fw.vt + TABLE_SIZE];
    }
  }

  /** After an update to a bootloader of the same size, the staged copy is still there with the image's own table; it
      names the application start and the length of the image's own copier. */
  lemma EqualSizeHarmless(fw: Firmware, f: Image, img: Image, baseSize: int)
    requires Linked(fw) && FitsForUpdate(fw, img, baseSize) && Linked(Updated(fw, img)) && ImageApp(fw, img) == fw.app
    ensures
      var g := UpdatedImage(fw, f, img, baseSize);
      && !NoStaleTable(Updated(fw, img), g) && StaleApp(Updated(fw, img), g) == Updated(fw, img).app
      && StaleBase(Updated(fw, img), g) == Wrap(OwnBase(fw, img)) && Harmless(Updated(fw, img), g)
  {
    hide TableIn, PageAddress, ReadyImage, Window, Wrap;
    ReadyWindows(fw, f, img, baseSize);
    AboveCopied(fw, ReadyImage(fw, f, img, baseSize), img);
  }

  lemma AboveCopied(fw: Firmware, h: Image, img: Image)
    requires Linked(fw) && AppOffset(fw) <= FLASH_SIZE
    ensures Window(Overlay(h, 0, img[..AppOffset(fw)]), fw.app, fw.vt) == Window(h, fw.app, fw.vt)
  {
    var g, o := Overlay(h, 0, img[..AppOffset(fw)]), AppOffset(fw) + fw.vt;
    assert g[o..o + TABLE_SIZE] == h[o..o + TABLE_SIZE];
  }

  /** The device restarted on what the update left: nothing cached, no reset pending. */
  predicate Restarted(s: Session, f: Image) {
    Ok(s) && s.cache.addr == NO_CACHE && Quiet(s.cache) && s.cache.chip.flash == f
  }

  /** The first session of an upgrade, with the copy that restarts the device. */
  ghost predicate Upgraded(fw: Firmware, s: Session, img: Image, ticks: seq<nat>, n: nat, waits: seq<bool>, ram: Ram,
                           f2: Image)
    requires Linked(fw) && Ok(s)
  {
    && Ready(fw, s) && Updatable(fw, s.cache.chip.flash, img)
    && FitsForUpdate(fw, img, CopierSize(fw, s.cache.chip.flash, img))
    && CopierInside(fw, img, CopierSize(fw, s.cache.chip.flash, img))
    && !SameBootloader(fw, s.cache.chip.flash, img) && Linked(Updated(fw, img))
    && n <= |ticks| && n <= NEVER && ImageApp(fw, img) < FLASH_BASE + HF2_PAGE_SIZE * n
    && var (c, how) := Prepare(fw, Flush(Feed(fw, s, img, ticks, n).cache).chip.(waits := waits), ram);
       how.Ran? && how.outcome.reset && c.flash == f2
  }

  /** What runs after that restart is the image's bootloader, over the remains of the staging. */
  lemma UpgradedBoots(fw: Firmware, s: Session, img: Image, ticks: seq<nat>, n: nat, waits: seq<bool>, ram: Ram,
                      f2: Image)
    requires Linked(fw) && Ok(s) && Upgraded(fw, s, img, ticks, n, waits, ram, f2)
    ensures f2 == UpdatedImage(fw, s.cache.chip.flash, img, CopierSize(fw, s.cache.chip.flash, img))
    ensures SameBootloader(Updated(fw, img), f2, img) && RunningTable(Updated(fw, img), f2)
  {
    hide Prepare, ReadyImage, Feed, Fetch, SameBootloader, NoStaleTable, RunningTable, CopierInside, PageAddress,
         TwoPages, ImageTable, Quiet, UpdatedImage, FlushedChip, CopierSize, Updatable;
    var f := s.cache.chip.flash;
    EndToEnd(fw, s, img, ticks, n, waits, ram);
    UpdatedIs(fw, f, img, CopierSize(fw, f, img), f2);
    UpdatedRuns(fw, f, img, CopierSize(fw, f, img));
  }

  /** The whole upgrade: a first session with a different bootloader, the copy, the restart, and the same image sent
      once more. Flash then holds the image, byte for byte, as far as it was sent. What the update leaves at the new
      application start must not be a table that names another start; after an update to the same size it never is. */
  lemma UpgradeThenInstall(fw: Firmware, s: Session, img: Image, ticks: seq<nat>, n: nat, waits: seq<bool>, ram: Ram,
                           s2: Session, ticks2: seq<nat>, n2: nat)
    requires Linked(fw) && Ok(s) && Upgraded(fw, s, img, ticks, n, waits, ram, s2.cache.chip.flash)
    requires Restarted(s2, s2.cache.chip.flash) && 2 * AppOffset(Updated(fw, img)) < FLASH_SIZE
    requires ImageApp(fw, img) == fw.app || Harmless(Updated(fw, img), s2.cache.chip.flash)
    requires n2 <= |ticks2| && n2 < NEVER && AppOffset(Updated(fw, img)) < HF2_PAGE_SIZE * n2
    ensures
      var r := Feed(Updated(fw, img), s2, img, ticks2, n2);
      !r.changed && Flush(r.cache).chip.flash[..HF2_PAGE_SIZE * n2] == img[..HF2_PAGE_SIZE * n2]
  {
    hide Prepare, ReadyImage, Feed, Fetch, SameBootloader, NoStaleTable, RunningTable, CopierInside, PageAddress,
         TwoPages, ImageTable, Quiet, UpdatedImage, Harmless, FlushedChip, CopierSize, Updatable;
    var f2 := s2.cache.chip.flash;
    UpgradedBoots(fw, s, img, ticks, n, waits, ram, f2);
    if ImageApp(fw, img) == fw.app {
      EqualSizeHarmless(fw, s.cache.chip.flash, img, CopierSize(fw, s.cache.chip.flash, img));
    }
    UnchangedSession(Updated(fw, img), s2, img, ticks2, n2);
    var g := Flush(Feed(Updated(fw, img), s2, img, ticks2, n2).cache).chip.flash;
    SameBoth(Updated(fw, img), f2, g, img, HF2_PAGE_SIZE * n2);
  }

  /** Two updates in a row to bootloaders of the same size: the copier of the second is as long as the table of the
      first says, so the first's must cover all of the second's. */
  lemma UpdateTwice(fw: Firmware, s: Session, img: Image, ticks: seq<nat>, n: nat, waits: seq<bool>, ram: Ram,
                    s2: Session, img2: Image, ticks2: seq<nat>, n2: nat, waits2: seq<bool>)
    requires Linked(fw) && Ok(s) && Upgraded(fw, s, img, ticks, n, waits, ram, s2.cache.chip.flash)
    requires Restarted(s2, s2.cache.chip.flash) && ImageApp(fw, img) == fw.app == ImageApp(fw, img2)
    requires FitsForUpdate(fw, img2, OwnBase(fw, img)) && CopierInside(fw, img2, OwnBase(fw, img))
    requires img2[..AppOffset(fw)] != img[..AppOffset(fw)]
    requires n2 <= |ticks2| && n2 <= NEVER && fw.app < FLASH_BASE + HF2_PAGE_SIZE * n2
    ensures
      var c := Flush(Feed(Updated(fw, img), s2, img2, ticks2, n2).cache).chip.(waits := waits2);
      var (c', how) := Prepare(Updated(fw, img), c, ram);
      && how.Ran? && (waits2 == [] ==> how.outcome.reset)
      && (how.outcome.reset ==> c'.flash[..AppOffset(fw)] == img2[..AppOffset(fw)])
  {
    hide Prepare, ReadyImage, Feed, Fetch, NoStaleTable, RunningTable, PageAddress, TwoPages, ImageTable, Quiet,
         UpdatedImage, Harmless, FlushedChip, StaleApp, StaleBase;
    var f2 := s2.cache.chip.flash;
    UpgradedBoots(fw, s, img, ticks, n, waits, ram, f2);
    EqualSizeHarmless(fw, s.cache.chip.flash, img, CopierSize(fw, s.cache.chip.flash, img));
    SameSizeFits(fw, img, img2, OwnBase(fw, img));
    EndToEnd(Updated(fw, img), s2, img2, ticks2, n2, waits2, ram);
  }

  /** Room is the same for both bootloaders. */
  lemma SameSizeFits(fw: Firmware, img: Image, img2: Image, baseSize: int)
    requires Linked(fw) && Linked(Updated(fw, img)) && ImageApp(fw, img) == fw.app
    requires FitsForUpdate(fw, img2, baseSize) && CopierInside(fw, img2, baseSize)
    ensures FitsForUpdate(Updated(fw, img), img2, baseSize) && CopierInside(Updated(fw, img), img2, baseSize)
    ensures ImageApp(Updated(fw, img), img2) == ImageApp(fw, img2) && Wrap(baseSize) == baseSize
  {
    hide TableIn, PageAddress, Window;
  }

  lemma UpdatedIs(fw: Firmware, f: Image, img: Image, baseSize: int, g: Image)
    requires Linked(fw) && FitsForUpdate(fw, img, baseSize)
    requires
      var size := ImageApp(fw, img) - FLASH_BASE;
      g[..size] == img[..size] && g[size..] == ReadyImage(fw, f, img, baseSize)[size..]
    ensures g == UpdatedImage(fw, f, img, baseSize)
  {
    hide ReadyImage;
    UpdatedBytes(g, ReadyImage(fw, f, img, baseSize), img, ImageApp(fw, img) - FLASH_BASE);
  }

  lemma SameBoth(fw: Firmware, f: Image, g: Image, img: Image, len: nat)
    requires Linked(fw) && AppOffset(fw) <= len <= FLASH_SIZE && SameBootloader(fw, f, img)
    requires g[..AppOffset(fw)] == f[..AppOffset(fw)] && g[AppOffset(fw)..len] == img[AppOffset(fw)..len]
    ensures g[..len] == img[..len]
  {
    assert g[..len] == g[..AppOffset(fw)] + g[AppOffset(fw)..len];
    assert img[..len] == img[..AppOffset(fw)] + img[AppOffset(fw)..len];
  }

  // ---------- the hypotheses can be met ----------

  /** A bootloader of four pages whose table starts page 0. */
  const SMALL := Firmware(FLASH_BASE + 0x1000, FLASH_BASE + 0x800, 0)

  function TableBytes(t: BaseTable): (s: seq<Byte>)
    ensures |s| == TABLE_SIZE
  {
    WordBytes(t.magic) + [0, 0, 0, 0] + WordBytes(t.baseloader) + WordBytes(t.baseEnd) + WordBytes(t.application) +
    WordBytes(t.magic2)
  }

  lemma TableRoundTrip(t: BaseTable)
    ensures TableIn(TableBytes(t)) == t
  {
    WordRoundTrip(t.magic);
    WordRoundTrip(t.baseloader);
    WordRoundTrip(t.baseEnd);
    WordRoundTrip(t.application);
    WordRoundTrip(t.magic2);
  }

  /** Flash that is erased but for a table naming an application start `pages` pages up. */
  function SmallImage(pages: nat): (f: Image)
    requires pages < 64
    ensures forall i :: TABLE_SIZE <= i < FLASH_SIZE ==> f[i] == ERASED
  {
    var t := BaseTable(BASE_MAGIC_NUMBER, FLASH_BASE + 0x200, FLASH_BASE + 0x800, FLASH_BASE + FLASH_PAGE_SIZE * pages,
                       BASE_MAGIC_NUMBER2);
    TableBytes(t) + seq(FLASH_SIZE - TABLE_SIZE, _ => ERASED)
  }

  lemma SmallTable(pages: nat)
    requires pages < 64
    ensures var t := ImageTable(SMALL, SmallImage(pages));
      ValidTable(t) && t.baseloader == FLASH_BASE + 0x200 && t.baseEnd == FLASH_BASE + 0x800 &&
      t.application == FLASH_BASE + FLASH_PAGE_SIZE * pages == PageAddress(t.application)
  {
    hide TableBytes, TableIn;
    var t := BaseTable(BASE_MAGIC_NUMBER, FLASH_BASE + 0x200, FLASH_BASE + 0x800, FLASH_BASE + FLASH_PAGE_SIZE * pages,
                       BASE_MAGIC_NUMBER2);
    TableRoundTrip(t);
    assert Window(SmallImage(pages), FLASH_BASE, 0) == TableBytes(t);
  }

  /** A device running the small bootloader. */
  function SmallDevice(): (s: Session)
    ensures Ok(s)
  {
    Session(Cache(Chip(SmallImage(4), [], []), NO_CACHE, seq(FLASH_PAGE_SIZE, _ => 0), 0, 0, 0, false), false, 0, 0,
        0, false)
  }

  /** The theorems about sessions are not about nothing: a four-page bootloader can be replaced by a five-page one,
      and an image with the running bootloader can be installed. */
  lemma UpdatePossible()
    ensures Linked(SMALL) && Fresh(SMALL, SmallDevice())
    ensures FitsForUpdate(SMALL, SmallImage(5), OwnBase(SMALL, SmallImage(5)))
      && CopierInside(SMALL, SmallImage(5), OwnBase(SMALL, SmallImage(5)))
    ensures !SameBootloader(SMALL, SmallDevice().cache.chip.flash, SmallImage(5))
    ensures FLASH_BASE + 256 * (21 - 1) == ImageApp(SMALL, SmallImage(5))
    ensures SameBootloader(SMALL, SmallDevice().cache.chip.flash, SmallImage(4)) && 2 * AppOffset(SMALL) < FLASH_SIZE
  {
    hide SmallImage, TableIn, PageAddress;
    SmallTable(4);
    SmallTable(5);
    NoTableWhenErased(SmallImage(4));
    SamePartSameTable(SmallImage(4), SmallImage(5), AppOffset(SMALL));
  }

  /** The two sessions of the upgrade are possible too: after it, no table lies where the new application starts. */
  lemma UpgradePossible()
    ensures
      var img, baseSize := SmallImage(5), OwnBase(SMALL, SmallImage(5));
      && Linked(SMALL) && FitsForUpdate(SMALL, img, baseSize) && Linked(Updated(SMALL, img))
      && 2 * AppOffset(Updated(SMALL, img)) < FLASH_SIZE
      && Harmless(Updated(SMALL, img), UpdatedImage(SMALL, SmallImage(4), img, baseSize))
  {
    hide SmallImage, TableIn, PageAddress, ReadyImage;
    SmallTable(5);
    UpdatePossible();
    UpdatedLinked(SMALL, SmallImage(5), OwnBase(SMALL, SmallImage(5)));
    ErasedBehind(SmallImage(4), SmallImage(5), OwnBase(SMALL, SmallImage(5)));
  }

  /** The small device after an earlier update to the same size: its table is left over at the application start. */
  function LeftoverDevice(): (s: Session)
    ensures Ok(s) && s.cache.addr == NO_CACHE && Quiet(s.cache)
    ensures s.cache.chip.flash == Overlay(SmallImage(4), AppOffset(SMALL), SmallImage(4)[..TABLE_SIZE])
  {
    SmallDevice().(cache := SmallDevice().cache.(chip := Chip(
      Overlay(SmallImage(4), AppOffset(SMALL), SmallImage(4)[..TABLE_SIZE]), [], [])))
  }

  /** An update over a leftover table is possible too. */
  lemma LeftoverPossible()
    ensures
      var s, img := LeftoverDevice(), SmallImage(4)[TABLE_SIZE := 0];
      var f := s.cache.chip.flash;
      && Linked(SMALL) && Ready(SMALL, s) && !NoStaleTable(SMALL, f) && Updatable(SMALL, f, img)
      && FitsForUpdate(SMALL, img, CopierSize(SMALL, f, img)) && CopierInside(SMALL, img, CopierSize(SMALL, f, img))
      && !SameBootloader(SMALL, f, img)
  {
    hide SmallImage, TableIn, PageAddress, Overlay, TableBytes;
    var img := SmallImage(4)[TABLE_SIZE := 0];
    var f := LeftoverDevice().cache.chip.flash;
    SmallTable(4);
    LeftoverWindows(SmallImage(4), f, img);
    assert f[..AppOffset(SMALL)][TABLE_SIZE] == ERASED && img[..AppOffset(SMALL)][TABLE_SIZE] == 0;
  }

  lemma LeftoverWindows(g: Image, f: Image, img: Image)
    requires f == Overlay(g, AppOffset(SMALL), g[..TABLE_SIZE]) && img == g[TABLE_SIZE := 0]
    ensures Window(f, FLASH_BASE, 0) == Window(g, FLASH_BASE, 0) == Window(img, FLASH_BASE, 0)
    ensures Window(f, SMALL.app, 0) == Window(g, FLASH_BASE, 0)
  {
  }

  lemma ErasedBehind(f: Image, img: Image, baseSize: int)
    requires FitsForUpdate(SMALL, img, baseSize) && CopierInside(SMALL, img, baseSize)
    requires ImageApp(SMALL, img) == FLASH_BASE + 5 * FLASH_PAGE_SIZE
    requires forall i :: TABLE_SIZE <= i < FLASH_SIZE ==> img[i] == ERASED
    ensures Linked(Updated(SMALL, img)) && NoStaleTable(Updated(SMALL, img), UpdatedImage(SMALL, f, img, baseSize))
  {
    hide TableIn, PageAddress, ImageTable;
    UpdatedLinked(SMALL, img, baseSize);
    var g := UpdatedImage(SMALL, f, img, baseSize);
    var w := Window(g, Updated(SMALL, img).app, 0);
    assert w[0] == g[5 * FLASH_PAGE_SIZE] == ReadyImage(SMALL, f, img, baseSize)[5 * FLASH_PAGE_SIZE];
    assert ReadyImage(SMALL, f, img, baseSize)[5 * FLASH_PAGE_SIZE] == img[FLASH_PAGE_SIZE];
    ErasedIsNoTable(w);
  }

  lemma ErasedIsNoTable(w: seq<Byte>)
    requires |w| == TABLE_SIZE && w[0] == ERASED
    ensures !ValidTable(TableIn(w))
  {
  }

  lemma SamePartSameTable(f: Image, g: Image, n: nat)
    requires TABLE_SIZE <= n <= FLASH_SIZE
    ensures f[..n] == g[..n] ==> ImageTable(SMALL, f) == ImageTable(SMALL, g)
  {
    assert f[..n][..TABLE_SIZE] == Window(f, FLASH_BASE, 0);
    assert g[..n][..TABLE_SIZE] == Window(g, FLASH_BASE, 0);
  }

  lemma NoTableWhenErased(f: Image)
    requires forall i :: TABLE_SIZE <= i < FLASH_SIZE ==> f[i] == ERASED
    ensures NoStaleTable(SMALL, f)
  {
    assert Window(f, SMALL.app, 0)[0] == ERASED;
  }

  // ---------- the mutable bootloader ----------

  class Bootloader {
    const fw: Firmware
    const loader: Copier

    ghost predicate Valid()
      reads loader, loader.chip
    {
      loader.Valid() && Linked(fw)
    }

    constructor (fw: Firmware, loader: Copier)
      requires loader.Valid() && Linked(fw)
      ensures Valid() && this.fw == fw && this.loader == loader
    {
      this.fw := fw;
      this.loader := loader;
    }

    /** The base vector table in a page of flash. */
    method ReadTable(page: int) returns (t: BaseTable)
      requires Valid() && PageInFlash(page)
      ensures t == TableIn(Window(loader.chip.Value().flash, page, fw.vt))
    {
      var at := page - FLASH_BASE + fw.vt;
      var w := loader.chip.cells[at..at + TABLE_SIZE];
      assert w == Window(loader.chip.Value().flash, page, fw.vt);
      t := TableIn(w);
    }

    method BaseloaderFetch() returns (found: Fetched)
      requires Valid()
      ensures found == Fetch(fw, loader.chip.Value().flash)
    {
      hide TableIn, Window, PageAddress;
      var first := ReadTable(fw.app);
      if !ValidTable(first) { return NotFound(-2, fw.app); }
      PageAligned(first.application);
      var size := Wrap(PageAddress(first.application) - FLASH_BASE);
      if Wrap(fw.app + size + FLASH_PAGE_SIZE) >= FLASH_END { return NotFound(-3, size); }
      var page := Wrap(fw.app + size);
      if !PageInFlash(Unalias(page)) { return NotFound(-4, page); }
      var second := ReadTable(Unalias(page));
      if !ValidTable(second) { return NotFound(-4, page); }
      found := Found(Wrap(second.baseloader - FLASH_BASE + page), FLASH_BASE, fw.app, size);
    }

    /** Returns only if nothing was run, the preview refused, or the copy failed without a reset. */
    method PrepareBaseloader(ram: Ram) returns (ran: bool, reset: bool)
      requires Valid()
      modifies loader, loader.chip, loader.chip.cells
      ensures Valid()
      ensures
        var (c, how) := Prepare(fw, old(loader.chip.Value()), ram);
        && loader.chip.Value() == c && ran == how.Ran?
        && (how.Refused? ==> loader.result == how.result)
        && (ran ==> loader.para == how.para && loader.result == how.outcome.result && reset == how.outcome.reset)
    {
      hide Start, Fetch;
      ran, reset := false, false;
      var found := BaseloaderFetch();
      if found.NotFound? || found.copier == 0 { return; }
      AppEven(fw);
      loader.para := CopyPara(found, true);
      var _ := loader.BaseloaderStart(ram);
      if loader.result <= 0 { return; }
      loader.para := CopyPara(found, false);
      reset := loader.BaseloaderStart(ram);
      ran := true;
    }
  }
}
