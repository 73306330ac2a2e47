// hf2.c: exactly when flashing a whole image, page by page, leaves the running bootloader alone.

module Hf2Safety {
  import opened Platform
  import opened FlashHardware
  import opened Baseloader
  import opened PageCache
  import opened Hf2Flashing

  // ---------- staging under a table that is already there ----------

  /** The application start named by the table at the old application start. */
  function StaleApp(fw: Firmware, f: Image): int
    requires Linked(fw)
  {
    PageAddress(TableIn(Window(f, fw.app, fw.vt)).application)
  }

  /** The size of the copier by that table. */
  function StaleBase(fw: Firmware, f: Image): Word
    requires Linked(fw)
  {
    Wrap(TableIn(Window(f, fw.app, fw.vt)).baseEnd - FLASH_BASE)
  }

  /** What the session takes from a table that was there before the first page. */
  predicate RecognisedStale(fw: Firmware, f: Image, s: Session)
    requires Linked(fw)
  {
    && !s.changed && s.found && s.newApp == StaleApp(fw, f) && s.newBootSize == Wrap(StaleApp(fw, f) - FLASH_BASE)
    && s.newBaseSize == StaleBase(fw, f)
  }

  predicate StaleStaging(fw: Firmware, f: Image, img: Image, s: Session, k: nat)
    requires Linked(fw)
  {
    Ok(s) && CacheStaging(fw, f, img, s.cache, k) && (k > 0 ==> RecognisedStale(fw, f, s))
  }

  /** The table is taken for the image's own before a single page of the image is in flash. */
  lemma StaleRecognise(fw: Firmware, f: Image, img: Image, s: Session, k: nat)
    requires Linked(fw) && k < FLASH_SIZE / HF2_PAGE_SIZE && StaleStaging(fw, f, img, s, k) && !NoStaleTable(fw, f)
    requires k > 0 ==> StaleApp(fw, f) > FLASH_BASE
    ensures RecognisedStale(fw, f, Recognise(fw, s, PageNo(k)))
  {
    hide View, StagedImage, Window, TableIn, PageAddress;
    if k == 0 {
      ViewUncached(s.cache);
      NothingStaged(fw, f, img);
    }
  }

  lemma NothingStaged(fw: Firmware, f: Image, img: Image)
    requires Linked(fw)
    ensures StagedLen(fw, 0) == 0 && StagedImage(fw, f, img, 0) == f
  {
  }

  lemma StaleAnyCache(fw: Firmware, f: Image, s: Session, c: Cache)
    requires Linked(fw)
    ensures RecognisedStale(fw, f, s.(cache := c)) == RecognisedStale(fw, f, s)
    ensures RecognisedStale(fw, f, s) ==>
      s.newApp == StaleApp(fw, f) && s.newBaseSize == StaleBase(fw, f) && s.found && !s.changed
  {
  }

  /** Pages below the application start of the table that was there are staged, whatever the image's own table says. */
  lemma StaleStagePacket(fw: Firmware, f: Image, img: Image, s: Session, k: nat, n: nat)
    requires Linked(fw) && k < FLASH_SIZE / HF2_PAGE_SIZE && StaleStaging(fw, f, img, s, k) && !NoStaleTable(fw, f)
    requires PageNo(k) < StaleApp(fw, f)
    ensures StaleStaging(fw, f, img, HandleFlashWrite(fw, s.(cache := Ticks(s.cache, n)), PageNo(k), Block(img, k)),
      k + 1)
  {
    hide CacheStaging, RecognisedStale, Recognise, WriteBlock, Ticks, NoStaleTable, StaleApp;
    TicksKeepStaging(fw, f, img, s.cache, k, n);
    var t := s.(cache := Ticks(s.cache, n));
    StaleAnyCache(fw, f, s, t.cache);
    StaleRecognise(fw, f, img, t, k);
    var r := Recognise(fw, t, PageNo(k));
    StageWrite(fw, f, img, t.cache, k);
    StaleAnyCache(fw, f, r, WriteBlock(t.cache, Staged(fw, PageNo(k)), Block(img, k)));
    StaleAnyCache(fw, f, r, r.cache);
  }

  /** The page that starts the application according to that table: everything staged is flushed and compared with the
      running bootloader, over the length that table gives. */
  lemma StaleFirstApp(fw: Firmware, f: Image, img: Image, s: Session, k: nat, n: nat)
    requires Linked(fw) && k < FLASH_SIZE / HF2_PAGE_SIZE && StaleStaging(fw, f, img, s, k) && !NoStaleTable(fw, f)
    requires PageNo(k) == StaleApp(fw, f)
    ensures
      var staged := StagedImage(fw, f, img, StagedLen(fw, k));
      var c := Flush(Ticks(s.cache, n));
      var r := HandleFlashWrite(fw, s.(cache := Ticks(s.cache, n)), PageNo(k), Block(img, k));
      && Quiet(c) && c.addr == NO_CACHE && c.chip.flash == staged
      && r.found && r.newApp == PageNo(k) && r.newBaseSize == StaleBase(fw, f)
      && r.changed == Differs(staged, fw.app, HF2_PAGE_SIZE * k)
      && (r.changed ==> r.cache == BootloaderUpdate(fw, c, HF2_PAGE_SIZE * k, r.newBaseSize, PageNo(k)).0)
      && (!r.changed ==> r.cache == WriteBlock(c, PageNo(k), Block(img, k)))
  {
    hide View, StagedImage, Window, TableIn, Recognise, Ticks, WriteBlock, FlushedChip, PageAddress, NoStaleTable;
    TicksKeepStaging(fw, f, img, s.cache, k, n);
    var t := s.(cache := Ticks(s.cache, n));
    StaleAnyCache(fw, f, s, t.cache);
    StaleRecognise(fw, f, img, t, k);
    FlushKeepsView(t.cache);
  }

  // ---------- from the old application start on ----------

  /** The view below the old application start is as in `f`, and either cache and flash are out of its reach or the
      hardware is fault-free. */
  predicate Above(fw: Firmware, f: Image, c: Cache) {
    Inv(c) && (Safe(fw, f, c) || (Quiet(c) && SameBelow(View(c), f, fw.app)))
  }

  lemma AboveView(fw: Firmware, f: Image, c: Cache)
    requires Above(fw, f, c)
    ensures SameBelow(View(c), f, fw.app)
  {
    hide View;
    if Safe(fw, f, c) {
      SafeView(fw, f, c);
    }
  }

  lemma AboveTicks(fw: Firmware, f: Image, c: Cache, n: nat)
    requires Above(fw, f, c)
    ensures Above(fw, f, Ticks(c, n))
  {
    hide View, Safe, Ticks, SameBelow;
    if Safe(fw, f, c) {
      SafeTicks(fw, f, c, n);
    } else {
      TicksOnlyFlush(c, n);
    }
  }

  lemma OverlayAbove(v: Image, f: Image, at: nat, data: seq<Byte>, lo: int)
    requires SameBelow(v, f, lo) && at + |data| <= FLASH_SIZE && lo - FLASH_BASE <= at
    ensures SameBelow(Overlay(v, at, data), f, lo)
  {
  }

  lemma AboveBlock(fw: Firmware, f: Image, c: Cache, dst: int, data: seq<Byte>)
    requires Linked(fw) && Above(fw, f, c) && |data| == HF2_PAGE_SIZE
    requires fw.app <= dst < 0x8000_0000 && dst % HF2_PAGE_SIZE == 0
    ensures Above(fw, f, WriteBlock(c, dst, data))
  {
    hide View, Safe, SameBelow, Overlay, WriteBlock, PageAddress;
    if Safe(fw, f, c) {
      SafeBlock(fw, f, c, dst, data);
    } else if dst + HF2_PAGE_SIZE < FLASH_END {
      BlockWritten(c, dst, data);
      OverlayAbove(View(c), f, dst - FLASH_BASE, data, fw.app);
    } else {
      BlockDropped(c, dst, data);
    }
  }

  lemma AboveFlush(fw: Firmware, f: Image, c: Cache)
    requires Linked(fw) && Above(fw, f, c)
    ensures Safe(fw, f, Flush(c))
  {
    hide View, SameBelow, FlushedChip;
    if Safe(fw, f, c) {
      SafeFlush(fw, f, c);
    } else {
      FlushKeepsView(c);
    }
  }

  /** A page at or above the old application start never changes the view below it. */
  lemma AbovePacket(fw: Firmware, f: Image, s: Session, target: int, data: seq<Byte>)
    requires Linked(fw) && Ok(s) && Advertised(target) && |data| == HF2_PAGE_SIZE
    requires Above(fw, f, s.cache) && fw.app <= target
    ensures Above(fw, f, HandleFlashWrite(fw, s, target, data).cache)
  {
    hide WriteBlock, BootloaderUpdate, Safe, Flush, Recognise, View, SameBelow;
    var s1 := Recognise(fw, s, target);
    if target < s1.newApp {
      AboveBlock(fw, f, s.cache, Staged(fw, target), data);
    } else {
      AboveBlock(fw, f, s.cache, target, data);
      AboveFlush(fw, f, s.cache);
      if s1.found && target == s1.newApp && !s1.changed {
        SafeUpdate(fw, f, Flush(s.cache), s1.newBootSize, s1.newBaseSize, target);
        SafeBlock(fw, f, BootloaderUpdate(fw, Flush(s.cache), s1.newBootSize, s1.newBaseSize, target).0, target, data);
      }
    }
  }

  // ---------- pages written over the running bootloader ----------

  /** Below the old application start, `v` is `f` with the image's pages from `from` up to `k` written over it. */
  predicate InPlace(fw: Firmware, f: Image, img: Image, v: Image, from: nat, k: nat)
    requires Linked(fw)
  {
    forall i :: 0 <= i < AppOffset(fw) ==> v[i] == if HF2_PAGE_SIZE * from <= i < HF2_PAGE_SIZE * k then img[i]
        else f[i]
  }

  /** A session whose application start is 0 reads the bootloader's own table and looks for one at the application
      start again at every page; it finds the same ones. */
  predicate Settled(fw: Firmware, s: Session)
    requires Linked(fw) && Ok(s)
  {
    s.newApp == 0 ==> NamesZero(fw, s.cache.chip.flash) && NamesZero(fw, View(s.cache))
  }

  /** A table that was there names address 0 as the application start. */
  predicate StaleZero(fw: Firmware, f: Image)
    requires Linked(fw)
  {
    !NoStaleTable(fw, f) && StaleApp(fw, f) == 0
  }

  predicate NamesZero(fw: Firmware, f: Image)
    requires Linked(fw)
  {
    StaleZero(fw, f) && RunningTable(fw, f)
  }

  /** The session takes page `k` and all that follow for application pages. */
  predicate Direct(fw: Firmware, f: Image, img: Image, s: Session, from: nat, k: nat)
    requires Linked(fw)
  {
    && Ok(s) && Quiet(s.cache) && s.found && !s.changed && s.newApp < FLASH_BASE + HF2_PAGE_SIZE * k
    && InPlace(fw, f, img, View(s.cache), from, k)
  }

  /** The 256-byte block that holds the bootloader's own table. */
  function TableBlock(fw: Firmware): nat {
    fw.vt / HF2_PAGE_SIZE
  }

  /** The running bootloader's own table still names its application start when the last of `n` pages arrives, as far
      as the session asks: with an application start of 0 it asks at every page. */
  predicate StartKept(fw: Firmware, f: Image, img: Image, n: nat)
    requires Linked(fw)
  {
    StaleZero(fw, f) ==> RunningTable(fw, img) || n <= TableBlock(fw) + 1
  }

  /** Writing in place since page `from`, with the tables as the next page needs them. */
  predicate Writing(fw: Firmware, f: Image, img: Image, s: Session, from: nat, k: nat)
    requires Linked(fw)
  {
    && Direct(fw, f, img, s, from, k)
    && (s.newApp == 0 && from <= TableBlock(fw) ==> StaleZero(fw, f))
    && (StartKept(fw, f, img, k + 1) ==> Settled(fw, s))
  }

  lemma InPlaceStep(fw: Firmware, f: Image, img: Image, v: Image, from: nat, k: nat)
    requires Linked(fw) && InPlace(fw, f, img, v, from, k) && from <= k && HF2_PAGE_SIZE * k < AppOffset(fw)
    ensures k < FLASH_SIZE / HF2_PAGE_SIZE && HF2_PAGE_SIZE * (k + 1) <= AppOffset(fw)
    ensures InPlace(fw, f, img, Overlay(v, HF2_PAGE_SIZE * k, Block(img, k)), from, k + 1)
  {
    PagesBelow(fw, k);
    var w := Overlay(v, HF2_PAGE_SIZE * k, Block(img, k));
    forall i | 0 <= i < AppOffset(fw)
      ensures w[i] == if HF2_PAGE_SIZE * from <= i < HF2_PAGE_SIZE * (k + 1) then img[i] else f[i]
    {
      assert w[i] == if HF2_PAGE_SIZE * k <= i < HF2_PAGE_SIZE * (k + 1) then img[i] else v[i];
    }
  }

  lemma PagesBelow(fw: Firmware, k: nat)
    requires Linked(fw) && HF2_PAGE_SIZE * k < AppOffset(fw)
    ensures k < FLASH_SIZE / HF2_PAGE_SIZE && HF2_PAGE_SIZE * (k + 1) <= AppOffset(fw)
  {
    var q := WholePages(fw);
  }

  /** The old bootloader is a whole number of 256-byte pages. */
  lemma WholePages(fw: Firmware) returns (q: nat)
    requires Linked(fw)
    ensures AppOffset(fw) == HF2_PAGE_SIZE * q
  {
    q := 4 * (fw.app / FLASH_PAGE_SIZE - FLASH_BASE / FLASH_PAGE_SIZE);
  }

  lemma StillNamesZero(fw: Firmware, v: Image, img: Image, k: nat)
    requires Linked(fw) && HF2_PAGE_SIZE * (k + 1) <= AppOffset(fw) && k < NEVER && NamesZero(fw, v)
    requires k != TableBlock(fw) || RunningTable(fw, img)
    ensures NamesZero(fw, Overlay(v, HF2_PAGE_SIZE * k, Block(img, k)))
  {
    hide TableIn, PageAddress, Overlay, Window, TableBlock;
    OtherWindow(fw, v, img, k);
    if k == TableBlock(fw) {
      OwnWindow(fw, v, img, k);
    }
  }

  /** Windows that do not lie in the block written. */
  lemma OtherWindow(fw: Firmware, v: Image, img: Image, k: nat)
    requires Linked(fw) && HF2_PAGE_SIZE * (k + 1) <= AppOffset(fw) && k < NEVER
    ensures
      var w := Overlay(v, HF2_PAGE_SIZE * k, Block(img, k));
      && Window(w, fw.app, fw.vt) == Window(v, fw.app, fw.vt)
      && (k != TableBlock(fw) ==> Window(w, FLASH_BASE, fw.vt) == Window(v, FLASH_BASE, fw.vt))
  {
    var w, q, r := Overlay(v, HF2_PAGE_SIZE * k, Block(img, k)), TableBlock(fw), fw.vt % HF2_PAGE_SIZE;
    assert fw.vt == HF2_PAGE_SIZE * q + r;
    if k != q {
      if k < q {
        assert HF2_PAGE_SIZE * (k + 1) <= HF2_PAGE_SIZE * q;
      } else {
        assert HF2_PAGE_SIZE * (q + 1) <= HF2_PAGE_SIZE * k;
      }
      assert w[fw.vt..fw.vt + TABLE_SIZE] == v[fw.vt..fw.vt + TABLE_SIZE];
    }
    var o := AppOffset(fw) + fw.vt;
    assert w[o..o + TABLE_SIZE] == v[o..o + TABLE_SIZE];
  }

  /** The block that holds the table brings the image's. */
  lemma OwnWindow(fw: Firmware, v: Image, img: Image, k: nat)
    requires Linked(fw) && k == TableBlock(fw) && k < NEVER
    ensures Window(Overlay(v, HF2_PAGE_SIZE * k, Block(img, k)), FLASH_BASE, fw.vt) == Window(img, FLASH_BASE, fw.vt)
  {
    var r := fw.vt % HF2_PAGE_SIZE;
    assert fw.vt == HF2_PAGE_SIZE * k + r;
    var w := Overlay(v, HF2_PAGE_SIZE * k, Block(img, k));
    forall i | fw.vt <= i < fw.vt + TABLE_SIZE
      ensures w[i] == img[i]
    {
      assert w[i] == Block(img, k)[i - HF2_PAGE_SIZE * k];
    }
    assert w[fw.vt..fw.vt + TABLE_SIZE] == img[fw.vt..fw.vt + TABLE_SIZE];
  }

  lemma DirectTicks(fw: Firmware, f: Image, img: Image, s: Session, from: nat, k: nat, n: nat)
    requires Linked(fw) && Direct(fw, f, img, s, from, k)
    ensures Direct(fw, f, img, s.(cache := Ticks(s.cache, n)), from, k)
    ensures Settled(fw, s) ==> Settled(fw, s.(cache := Ticks(s.cache, n)))
  {
    hide View, InPlace, NamesZero, Ticks;
    TicksOnlyFlush(s.cache, n);
  }

  lemma DirectRecognise(fw: Firmware, s: Session, target: int)
    requires Linked(fw) && Ok(s) && s.found && !s.changed && Settled(fw, s) && target != FLASH_BASE
    ensures var r := Recognise(fw, s, target);
      r.found && !r.changed && r.newApp == s.newApp && r.cache == s.cache && Settled(fw, r)
  {
    hide View, Window, TableIn, PageAddress, RunningTable;
    PageAligned(fw.app);
  }

  /** Writing page `k` to its own address. */
  lemma DirectWrite(fw: Firmware, f: Image, img: Image, s: Session, from: nat, k: nat)
    requires Linked(fw) && Ok(s) && Quiet(s.cache) && s.found && !s.changed
    requires InPlace(fw, f, img, View(s.cache), from, k) && from <= k && HF2_PAGE_SIZE * k < AppOffset(fw)
    requires s.newApp <= FLASH_BASE + HF2_PAGE_SIZE * k
    ensures k < FLASH_SIZE / HF2_PAGE_SIZE
    ensures
      var r := s.(cache := WriteBlock(s.cache, PageNo(k), Block(img, k)));
      && Direct(fw, f, img, r, from, k + 1)
      && (Settled(fw, s) && (k != TableBlock(fw) || RunningTable(fw, img)) ==> Settled(fw, r))
  {
    hide View, InPlace, NamesZero, Overlay, WriteBlock, RunningTable, TableBlock;
    InPlaceStep(fw, f, img, View(s.cache), from, k);
    if NamesZero(fw, View(s.cache)) && (k != TableBlock(fw) || RunningTable(fw, img)) {
      StillNamesZero(fw, View(s.cache), img, k);
    }
    BlockWritten(s.cache, PageNo(k), Block(img, k));
  }

  lemma DirectPacket(fw: Firmware, f: Image, img: Image, s: Session, from: nat, k: nat, n: nat)
    requires Linked(fw) && Direct(fw, f, img, s, from, k) && from <= k && 0 < HF2_PAGE_SIZE * k < AppOffset(fw)
    requires s.newApp < FLASH_BASE + HF2_PAGE_SIZE * k && Settled(fw, s)
    ensures k < FLASH_SIZE / HF2_PAGE_SIZE
    ensures
      var r := HandleFlashWrite(fw, s.(cache := Ticks(s.cache, n)), PageNo(k), Block(img, k));
      && Direct(fw, f, img, r, from, k + 1) && r.newApp == s.newApp
      && (k != TableBlock(fw) || RunningTable(fw, img) ==> Settled(fw, r))
  {
    hide View, InPlace, Settled, WriteBlock, Recognise, Ticks, RunningTable, TableBlock;
    DirectTicks(fw, f, img, s, from, k, n);
    var t := s.(cache := Ticks(s.cache, n));
    DirectRecognise(fw, t, PageNo(k));
    DirectWrite(fw, f, img, Recognise(fw, t, PageNo(k)), from, k);
  }

  /** One page more, as long as the tables are still in place. */
  lemma WritingPacket(fw: Firmware, f: Image, img: Image, s: Session, from: nat, k: nat, n: nat)
    requires Linked(fw) && Writing(fw, f, img, s, from, k) && StartKept(fw, f, img, k + 1)
    requires from <= k && 0 < HF2_PAGE_SIZE * k < AppOffset(fw)
    ensures k < FLASH_SIZE / HF2_PAGE_SIZE
    ensures Writing(fw, f, img, HandleFlashWrite(fw, s.(cache := Ticks(s.cache, n)), PageNo(k), Block(img, k)), from,
      k + 1)
  {
    hide InPlace, RunningTable, TableBlock, NoStaleTable, StaleApp, HandleFlashWrite, Ticks, NamesZero, View;
    DirectPacket(fw, f, img, s, from, k, n);
  }

  // ---------- exactly when a session is safe ----------

  const NEVER := FLASH_SIZE / HF2_PAGE_SIZE

  /** The first page that a session may write over the running bootloader, if any. Without a table at the old
      application start: none, if the image's own table names two pages or more; the sixth, if it names one; and
      otherwise the page after that table. With one: none, if it names the old application start or more; the first,
      if it names the flash base or less; in between, the page where the application starts by that table, if the
      pages staged by then do not differ from the running bootloader. */
  function FirstDirect(fw: Firmware, f: Image, img: Image): nat
    requires Linked(fw)
  {
    if NoStaleTable(fw, f) then
      if TwoPages(fw, img) then NEVER
      else if ImageApp(fw, img) == FLASH_BASE + FLASH_PAGE_SIZE then 5
      else fw.vt / HF2_PAGE_SIZE + 1
    else
      var stale := StaleApp(fw, f);
      if stale <= FLASH_BASE then 0
      else if stale >= fw.app || StaleDiffers(fw, f, img) then NEVER
      else (stale - FLASH_BASE) / HF2_PAGE_SIZE
  }

  /** The comparison made where the application starts by the table that was there. */
  predicate StaleDiffers(fw: Firmware, f: Image, img: Image)
    requires Linked(fw) && FLASH_BASE <= StaleApp(fw, f)
  {
    var size := StaleApp(fw, f) - FLASH_BASE;
    Differs(StagedImage(fw, f, img, StagedLen(fw, size / HF2_PAGE_SIZE)), fw.app, size)
  }

  /** From that page on, the image agrees with the running bootloader. */
  predicate KeepsBootloader(fw: Firmware, f: Image, img: Image)
    requires Linked(fw)
  {
    forall i :: HF2_PAGE_SIZE * FirstDirect(fw, f, img) <= i < AppOffset(fw) ==> img[i] == f[i]
  }

  /** A session at page `n`, below the old application start: halted by a changed bootloader, or writing in place from a
      page on that KeepsBootloader covers. */
  predicate Decided(fw: Firmware, f: Image, img: Image, s: Session, n: nat)
    requires Linked(fw) && Ok(s)
  {
    n > 0 && ((Halted(s) && Safe(fw, f, s.cache)) || DirectLate(fw, f, img, s, n))
  }

  predicate DirectLate(fw: Firmware, f: Image, img: Image, s: Session, n: nat)
    requires Linked(fw)
  {
    exists from :: FirstDirect(fw, f, img) <= from <= n && Writing(fw, f, img, s, from, n)
  }

  lemma DecidedIsAbove(fw: Firmware, f: Image, img: Image, s: Session, n: nat)
    requires Linked(fw) && Ok(s) && KeepsBootloader(fw, f, img) && Decided(fw, f, img, s, n)
    ensures Above(fw, f, s.cache)
  {
    hide View, Safe, Settled, FirstDirect, StartKept, StaleZero, TableBlock;
    if !Safe(fw, f, s.cache) {
      var from :| FirstDirect(fw, f, img) <= from <= n && Writing(fw, f, img, s, from, n);
      InPlaceSame(fw, f, img, View(s.cache), from, n);
    }
  }

  lemma InPlaceSame(fw: Firmware, f: Image, img: Image, v: Image, from: nat, n: nat)
    requires Linked(fw) && InPlace(fw, f, img, v, from, n)
    requires forall i :: HF2_PAGE_SIZE * from <= i < AppOffset(fw) ==> img[i] == f[i]
    ensures SameBelow(v, f, fw.app)
  {
  }

  lemma DecidedPacket(fw: Firmware, f: Image, img: Image, s: Session, k: nat, n: nat)
    requires Linked(fw) && Ok(s) && Decided(fw, f, img, s, k) && HF2_PAGE_SIZE * k < AppOffset(fw)
    requires StartKept(fw, f, img, k + 1)
    ensures k < NEVER
    ensures
      var r := HandleFlashWrite(fw, s.(cache := Ticks(s.cache, n)), PageNo(k), Block(img, k));
      Decided(fw, f, img, r, k + 1)
  {
    hide Safe, Writing, FirstDirect, HandleFlashWrite, Ticks, StartKept;
    PagesBelow(fw, k);
    if Halted(s) && Safe(fw, f, s.cache) {
      SafeTicks(fw, f, s.cache, n);
      NothingAfterChange(fw, s.(cache := Ticks(s.cache, n)), PageNo(k), Block(img, k));
    } else {
      var from :| FirstDirect(fw, f, img) <= from <= k && Writing(fw, f, img, s, from, k);
      WritingPacket(fw, f, img, s, from, k, n);
    }
  }

  lemma SameIsInPlace(fw: Firmware, f: Image, img: Image, v: Image, k: nat)
    requires Linked(fw) && SameBelow(v, f, fw.app)
    ensures InPlace(fw, f, img, v, k, k)
  {
  }

  // ---------- with a table that is already there ----------

  predicate StaleWaiting(fw: Firmware, f: Image, img: Image, s: Session, n: nat)
    requires Linked(fw)
  {
    StaleStaging(fw, f, img, s, n) && (n > 0 ==> FLASH_BASE + HF2_PAGE_SIZE * n <= StaleApp(fw, f))
  }

  lemma StaleDirectStart(fw: Firmware, f: Image, img: Image, s: Session, n: nat)
    requires Linked(fw) && StaleStaging(fw, f, img, s, 0) && !NoStaleTable(fw, f) && StaleApp(fw, f) < FLASH_BASE
    requires RunningTable(fw, f)
    ensures
      var r := HandleFlashWrite(fw, s.(cache := Ticks(s.cache, n)), PageNo(0), Block(img, 0));
      Writing(fw, f, img, r, 0, 1)
  {
    hide View, StagedImage, Window, TableIn, Ticks, WriteBlock, PageAddress, InPlace, RunningTable, TableBlock;
    TicksKeepStaging(fw, f, img, s.cache, 0, n);
    var t := s.(cache := Ticks(s.cache, n));
    StaleAnyCache(fw, f, s, t.cache);
    StaleRecognise(fw, f, img, t, 0);
    ViewUncached(t.cache);
    NothingStaged(fw, f, img);
    SameIsInPlace(fw, f, img, View(t.cache), 0);
    DirectWrite(fw, f, img, Recognise(fw, t, PageNo(0)), 0, 0);
  }

  lemma StaleHalts(fw: Firmware, f: Image, img: Image, s: Session, k: nat, n: nat)
    requires Linked(fw) && StaleStaging(fw, f, img, s, k) && !NoStaleTable(fw, f) && k < NEVER
    requires PageNo(k) == StaleApp(fw, f) && StaleDiffers(fw, f, img)
    ensures
      var r := HandleFlashWrite(fw, s.(cache := Ticks(s.cache, n)), PageNo(k), Block(img, k));
      Halted(r) && Safe(fw, f, r.cache)
  {
    hide View, StagedImage, Ticks, HandleFlashWrite, BootloaderUpdate, Flush, Safe, CacheStaging, StaleApp,
         NoStaleTable, Differs, Inv, RecognisedStale;
    var r := HandleFlashWrite(fw, s.(cache := Ticks(s.cache, n)), PageNo(k), Block(img, k));
    StaleFirstApp(fw, f, img, s, k, n);
    StagingIsSafe(fw, f, img, s.cache, k);
    SafeTicks(fw, f, s.cache, n);
    SafeFlush(fw, f, Ticks(s.cache, n));
    StalePageStart(fw, f);
    SafeUpdate(fw, f, Flush(Ticks(s.cache, n)), HF2_PAGE_SIZE * k, r.newBaseSize, PageNo(k));
  }

  /** The first page in place, with an application start other than 0. */
  lemma WritingStarts(fw: Firmware, f: Image, img: Image, s: Session, k: nat)
    requires Linked(fw) && Ok(s) && Quiet(s.cache) && s.found && !s.changed
    requires InPlace(fw, f, img, View(s.cache), k, k) && HF2_PAGE_SIZE * k < AppOffset(fw) && k < NEVER
    requires 0 != s.newApp <= FLASH_BASE + HF2_PAGE_SIZE * k
    ensures Writing(fw, f, img, s.(cache := WriteBlock(s.cache, PageNo(k), Block(img, k))), k, k + 1)
  {
    hide View, InPlace, WriteBlock, StartKept, Direct;
    DirectWrite(fw, f, img, s, k, k);
  }

  /** Nothing differs there: the page is written over what the flush left, which is the running bootloader below. */
  lemma StaleSame(fw: Firmware, f: Image, img: Image, s: Session, k: nat, n: nat)
    requires Linked(fw) && StaleStaging(fw, f, img, s, k) && !NoStaleTable(fw, f) && k < NEVER
    requires PageNo(k) == StaleApp(fw, f) < fw.app && !StaleDiffers(fw, f, img)
    ensures
      var c := Flush(Ticks(s.cache, n));
      var r := HandleFlashWrite(fw, s.(cache := Ticks(s.cache, n)), PageNo(k), Block(img, k));
      && Inv(c) && Quiet(c) && SameBelow(View(c), f, fw.app)
      && r.found && !r.changed && r.newApp == PageNo(k) && r.cache == WriteBlock(c, PageNo(k), Block(img, k))
  {
    hide View, StagedImage, Ticks, WriteBlock, HandleFlashWrite, BootloaderUpdate, Flush, Safe, CacheStaging, StaleApp,
         NoStaleTable, Differs, RecognisedStale, SameBelow;
    StaleFirstApp(fw, f, img, s, k, n);
    StagingIsSafe(fw, f, img, s.cache, k);
    SafeTicks(fw, f, s.cache, n);
    SafeFlush(fw, f, Ticks(s.cache, n));
    SafeView(fw, f, Flush(Ticks(s.cache, n)));
  }

  lemma StaleWritesOn(fw: Firmware, f: Image, img: Image, s: Session, k: nat, n: nat)
    requires Linked(fw) && StaleStaging(fw, f, img, s, k) && !NoStaleTable(fw, f) && k < NEVER
    requires PageNo(k) == StaleApp(fw, f) < fw.app && !StaleDiffers(fw, f, img)
    ensures Writing(fw, f, img, HandleFlashWrite(fw, s.(cache := Ticks(s.cache, n)), PageNo(k), Block(img, k)), k,
      k + 1)
  {
    hide View, Ticks, WriteBlock, InPlace, Writing, HandleFlashWrite, Flush, CacheStaging, StaleApp, NoStaleTable,
         StaleDiffers, RecognisedStale, SameBelow, Inv, Quiet;
    StaleSame(fw, f, img, s, k, n);
    var c := Flush(Ticks(s.cache, n));
    var r := HandleFlashWrite(fw, s.(cache := Ticks(s.cache, n)), PageNo(k), Block(img, k));
    SameIsInPlace(fw, f, img, View(c), k);
    WritingStarts(fw, f, img, r.(cache := c), k);
  }

  lemma StalePageStart(fw: Firmware, f: Image)
    requires Linked(fw)
    ensures StaleApp(fw, f) % FLASH_PAGE_SIZE == 0
  {
    PageAligned(TableIn(Window(f, fw.app, fw.vt)).application);
  }

  lemma StalePacket(fw: Firmware, f: Image, img: Image, s: Session, k: nat, n: nat)
    requires Linked(fw) && StaleWaiting(fw, f, img, s, k) && !NoStaleTable(fw, f) && HF2_PAGE_SIZE * k < AppOffset(fw)
    requires RunningTable(fw, f)
    ensures k < NEVER
    ensures
      var r := HandleFlashWrite(fw, s.(cache := Ticks(s.cache, n)), PageNo(k), Block(img, k));
      StaleWaiting(fw, f, img, r, k + 1) || Decided(fw, f, img, r, k + 1)
  {
    hide StaleStaging, Writing, Safe, HandleFlashWrite, Ticks, StaleApp, NoStaleTable, StaleDiffers, RunningTable;
    PagesBelow(fw, k);
    StalePageStart(fw, f);
    if PageNo(k) < StaleApp(fw, f) {
      StaleStagePacket(fw, f, img, s, k, n);
    } else if PageNo(k) == StaleApp(fw, f) {
      if StaleDiffers(fw, f, img) {
        StaleHalts(fw, f, img, s, k, n);
      } else {
        StaleWritesOn(fw, f, img, s, k, n);
        DirectFromHere(fw, f, img, k);
      }
    } else {
      StaleDirectStart(fw, f, img, s, n);
    }
  }

  lemma DirectFromHere(fw: Firmware, f: Image, img: Image, k: nat)
    requires Linked(fw) && !NoStaleTable(fw, f) && StaleApp(fw, f) == FLASH_BASE + HF2_PAGE_SIZE * k < fw.app
    ensures !StaleDiffers(fw, f, img) ==> FirstDirect(fw, f, img) == k
  {
  }

  // ---------- with an image whose table names less than two pages ----------

  predicate SmallWaiting(fw: Firmware, f: Image, img: Image, s: Session, n: nat)
    requires Linked(fw)
  {
    && Staging(fw, f, img, s, n) && n <= 5
    && (n > 0 && s.found ==> ImageApp(fw, img) == FLASH_BASE + FLASH_PAGE_SIZE && n <= 4)
  }

  /** When the table has not been found, the page is staged; when it has, its application start decides. */
  lemma SmallRecognise(fw: Firmware, f: Image, img: Image, s: Session, k: nat)
    requires Linked(fw) && SmallWaiting(fw, f, img, s, k) && NoStaleTable(fw, f) && !TwoPages(fw, img)
    ensures ValidTable(ImageTable(fw, img)) && ImageApp(fw, img) <= FLASH_BASE + FLASH_PAGE_SIZE
    ensures
      var r := Recognise(fw, s, PageNo(k));
      && Recognised(fw, img, r, k + 1)
      && (!r.found ==> k <= 4)
      && (r.found ==> r.newApp == ImageApp(fw, img))
      && (r.found && r.newApp <= FLASH_BASE ==> fw.vt < HF2_PAGE_SIZE * k && SeenByAll(fw, img, s.cache))
  {
    hide View, StagedImage, Window, TableIn, PageAddress;
    PageAligned(ImageTable(fw, img).application);
    PageAligned(fw.app);
    SmallFound(fw, f, img, s, k);
  }

  /** Flash and view hold the image's table at the old application start. */
  predicate SeenByAll(fw: Firmware, img: Image, c: Cache)
    requires Linked(fw) && Inv(c)
  {
    && Window(c.chip.flash, fw.app, fw.vt) == Window(img, FLASH_BASE, fw.vt)
    && Window(View(c), fw.app, fw.vt) == Window(img, FLASH_BASE, fw.vt)
  }

  lemma SmallFound(fw: Firmware, f: Image, img: Image, s: Session, k: nat)
    requires Linked(fw) && SmallWaiting(fw, f, img, s, k) && NoStaleTable(fw, f)
    ensures ValidTable(TableIn(Window(s.cache.chip.flash, fw.app, fw.vt))) ==> SeenByAll(fw, img, s.cache)
  {
    hide View, StagedImage, TableIn;
    ViewWindow(fw, f, img, StagedLen(fw, k));
    StagedAlready(fw, k);
  }

  lemma StagedAlready(fw: Firmware, k: nat)
    requires Linked(fw)
    ensures fw.vt < HF2_PAGE_SIZE * k ==> fw.vt < StagedLen(fw, k)
  {
  }

  lemma SmallStages(fw: Firmware, f: Image, img: Image, s: Session, k: nat, n: nat)
    requires Linked(fw) && SmallWaiting(fw, f, img, s, k) && NoStaleTable(fw, f) && !TwoPages(fw, img)
    requires var r := Recognise(fw, s.(cache := Ticks(s.cache, n)), PageNo(k)); !r.found || PageNo(k) < r.newApp
    ensures SmallWaiting(fw, f, img, HandleFlashWrite(fw, s.(cache := Ticks(s.cache, n)), PageNo(k), Block(img, k)),
      k + 1)
  {
    hide CacheStaging, Recognised, Recognise, WriteBlock, StagingEnd, TwoPages, Ticks, NoStaleTable, ImageTable,
         PageAddress;
    SmallTicks(fw, f, img, s, k, n);
    var t := s.(cache := Ticks(s.cache, n));
    SmallRecognise(fw, f, img, t, k);
    var r := Recognise(fw, t, PageNo(k));
    RecognisedUnchanged(fw, img, r, k + 1);
    RecognisedStart(fw, img, r, k + 1);
    StageWrite(fw, f, img, t.cache, k);
    RecognisedAnyCache(fw, img, r, WriteBlock(t.cache, Staged(fw, PageNo(k)), Block(img, k)), k + 1);
  }

  lemma RecognisedStart(fw: Firmware, img: Image, s: Session, k: nat)
    requires Linked(fw) && Recognised(fw, img, s, k)
    ensures !s.found ==> s.newApp == fw.app
  {
  }

  lemma SmallTicks(fw: Firmware, f: Image, img: Image, s: Session, k: nat, n: nat)
    requires Linked(fw) && SmallWaiting(fw, f, img, s, k)
    ensures SmallWaiting(fw, f, img, s.(cache := Ticks(s.cache, n)), k)
  {
    hide CacheStaging, Recognised, Ticks, ImageTable, PageAddress;
    TicksKeepStaging(fw, f, img, s.cache, k, n);
    RecognisedAnyCache(fw, img, s, Ticks(s.cache, n), k);
  }

  /** At the page where the application starts by the image's table, the staged bootloader differs from the running one,
      which names another start. */
  lemma SmallHalts(fw: Firmware, f: Image, img: Image, s: Session, k: nat, n: nat)
    requires Linked(fw) && SmallWaiting(fw, f, img, s, k) && NoStaleTable(fw, f) && !TwoPages(fw, img)
      && RunningTable(fw, f)
    requires var r := Recognise(fw, s.(cache := Ticks(s.cache, n)), PageNo(k)); r.found && PageNo(k) == r.newApp
    ensures
      var r := HandleFlashWrite(fw, s.(cache := Ticks(s.cache, n)), PageNo(k), Block(img, k));
      Halted(r) && Safe(fw, f, r.cache)
  {
    hide CacheStaging, WriteBlock, StagingEnd, TwoPages, Ticks, NoStaleTable, ImageTable, PageAddress, Differs, View,
         StagedImage, Window, TableIn, FlushedChip, FlashWrite, Safe, RunningTable, Recognise;
    SmallTicks(fw, f, img, s, k, n);
    var t := s.(cache := Ticks(s.cache, n));
    SmallRecognise(fw, f, img, t, k);
    var r, c := Recognise(fw, t, PageNo(k)), Flush(t.cache);
    SmallFlushed(fw, f, img, t, k);
    RecognisedSizes(fw, img, r, k + 1);
    PageAligned(ImageTable(fw, img).application);
    SmallCompares(fw, f, img, k);
    StagingIsSafe(fw, f, img, t.cache, k);
    SafeFlush(fw, f, t.cache);
    SafeUpdate(fw, f, c, r.newBootSize, r.newBaseSize, PageNo(k));
  }

  lemma SmallFlushed(fw: Firmware, f: Image, img: Image, s: Session, k: nat)
    requires Linked(fw) && SmallWaiting(fw, f, img, s, k)
    ensures Flush(s.cache).chip.flash == StagedImage(fw, f, img, StagedLen(fw, k))
  {
    hide StagedImage, Window, View, FlushedChip;
    FlushKeepsView(s.cache);
  }

  lemma RecognisedSizes(fw: Firmware, img: Image, s: Session, k: nat)
    requires Linked(fw) && Recognised(fw, img, s, k) && s.found
    ensures !s.changed && s.newBootSize == Wrap(s.newApp - FLASH_BASE)
  {
  }

  lemma SmallCompares(fw: Firmware, f: Image, img: Image, k: nat)
    requires Linked(fw) && RunningTable(fw, f) && 0 < k <= 4 && PageNo(k) == ImageApp(fw, img)
    ensures k == 4 && ImageApp(fw, img) == FLASH_BASE + FLASH_PAGE_SIZE
    ensures Differs(StagedImage(fw, f, img, StagedLen(fw, k)), fw.app, FLASH_PAGE_SIZE)
  {
    PageAligned(ImageTable(fw, img).application);
    if !Differs(StagedImage(fw, f, img, StagedLen(fw, k)), fw.app, FLASH_PAGE_SIZE) {
      IdenticalMeansSameApp(fw, f, img, StagedLen(fw, k), FLASH_PAGE_SIZE);
    }
  }

  lemma SeenNamesZero(fw: Firmware, img: Image, c: Cache)
    requires Linked(fw) && Inv(c) && SeenByAll(fw, img, c) && ValidTable(ImageTable(fw, img)) && ImageApp(fw, img) == 0
    requires RunningTable(fw, c.chip.flash) && RunningTable(fw, View(c))
    ensures NamesZero(fw, c.chip.flash) && NamesZero(fw, View(c))
  {
    hide View, Window, TableIn, PageAddress;
  }

  lemma SafeTables(fw: Firmware, f: Image, c: Cache)
    requires Linked(fw) && Safe(fw, f, c) && RunningTable(fw, f)
    ensures RunningTable(fw, c.chip.flash) && RunningTable(fw, View(c))
  {
    hide TableIn, PageAddress, View;
    SafeView(fw, f, c);
    SameTable(fw, c.chip.flash, f);
    SameTable(fw, View(c), f);
  }

  lemma SameTable(fw: Firmware, g: Image, f: Image)
    requires Linked(fw) && SameBelow(g, f, fw.app)
    ensures Window(g, FLASH_BASE, fw.vt) == Window(f, FLASH_BASE, fw.vt)
  {
  }

  lemma TableBlockBelow(fw: Firmware, k: nat)
    requires Linked(fw)
    ensures TableBlock(fw) < k <==> fw.vt < HF2_PAGE_SIZE * k
  {
  }

  /** Past the page where the application starts by the image's table, pages go to their own addresses. */
  lemma SmallDirect(fw: Firmware, f: Image, img: Image, s: Session, k: nat, n: nat)
    requires Linked(fw) && SmallWaiting(fw, f, img, s, k) && NoStaleTable(fw, f) && !TwoPages(fw, img)
    requires RunningTable(fw, f)
    requires var r := Recognise(fw, s.(cache := Ticks(s.cache, n)), PageNo(k)); r.found && r.newApp < PageNo(k)
    ensures FirstDirect(fw, f, img) <= k
    ensures Writing(fw, f, img, HandleFlashWrite(fw, s.(cache := Ticks(s.cache, n)), PageNo(k), Block(img, k)), k,
      k + 1)
  {
    hide CacheStaging, Recognised, Recognise, WriteBlock, StagingEnd, TwoPages, Ticks, NoStaleTable, ImageTable,
         PageAddress, View, Safe, SeenByAll, NamesZero, InPlace, RunningTable, StartKept, StaleZero, TableBlock;
    SmallTicks(fw, f, img, s, k, n);
    var t := s.(cache := Ticks(s.cache, n));
    SmallRecognise(fw, f, img, t, k);
    var r := Recognise(fw, t, PageNo(k));
    RecognisedSizes(fw, img, r, k + 1);
    StagingIsSafe(fw, f, img, t.cache, k);
    SafeView(fw, f, t.cache);
    if r.newApp == 0 {
      SafeTables(fw, f, t.cache);
      SeenNamesZero(fw, img, t.cache);
      TableBlockBelow(fw, k);
    }
    StagingQuiet(fw, f, img, t.cache, k);
    SameIsInPlace(fw, f, img, View(t.cache), k);
    DirectWrite(fw, f, img, r, k, k);
  }

  lemma StagingQuiet(fw: Firmware, f: Image, img: Image, c: Cache, k: nat)
    requires Linked(fw) && CacheStaging(fw, f, img, c, k)
    ensures Inv(c) && Quiet(c)
  {
  }

  lemma SmallPacket(fw: Firmware, f: Image, img: Image, s: Session, k: nat, n: nat)
    requires Linked(fw) && SmallWaiting(fw, f, img, s, k) && NoStaleTable(fw, f) && !TwoPages(fw, img)
      && RunningTable(fw, f)
    ensures
      var r := HandleFlashWrite(fw, s.(cache := Ticks(s.cache, n)), PageNo(k), Block(img, k));
      SmallWaiting(fw, f, img, r, k + 1) || Decided(fw, f, img, r, k + 1)
  {
    hide CacheStaging, Recognised, Direct, Safe, HandleFlashWrite, Recognise, Ticks, NoStaleTable, TwoPages,
         RunningTable, FirstDirect;
    var r := Recognise(fw, s.(cache := Ticks(s.cache, n)), PageNo(k));
    if !r.found || PageNo(k) < r.newApp {
      SmallStages(fw, f, img, s, k, n);
    } else if r.newApp == PageNo(k) {
      SmallHalts(fw, f, img, s, k, n);
    } else {
      SmallDirect(fw, f, img, s, k, n);
    }
  }

  // ---------- whole sessions ----------

  predicate Undecided(fw: Firmware, f: Image, img: Image, s: Session, n: nat)
    requires Linked(fw)
  {
    if NoStaleTable(fw, f) then SmallWaiting(fw, f, img, s, n) else StaleWaiting(fw, f, img, s, n)
  }

  lemma UndecidedIsSafe(fw: Firmware, f: Image, img: Image, s: Session, n: nat)
    requires Linked(fw) && Undecided(fw, f, img, s, n)
    ensures Ok(s) && Safe(fw, f, s.cache)
  {
    hide CacheStaging, Safe, NoStaleTable;
    StagingIsSafe(fw, f, img, s.cache, n);
  }

  lemma UndecidedPacket(fw: Firmware, f: Image, img: Image, s: Session, k: nat, n: nat)
    requires Linked(fw) && Ok(s) && RunningTable(fw, f) && (NoStaleTable(fw, f) ==> !TwoPages(fw, img))
    requires Undecided(fw, f, img, s, k) && HF2_PAGE_SIZE * k < AppOffset(fw)
    ensures k < NEVER
    ensures
      var r := HandleFlashWrite(fw, s.(cache := Ticks(s.cache, n)), PageNo(k), Block(img, k));
      Undecided(fw, f, img, r, k + 1) || Decided(fw, f, img, r, k + 1)
  {
    hide Decided, SmallWaiting, StaleWaiting, HandleFlashWrite, NoStaleTable, TwoPages, RunningTable, Ticks;
    PagesBelow(fw, k);
    if NoStaleTable(fw, f) {
      SmallPacket(fw, f, img, s, k, n);
    } else {
      StalePacket(fw, f, img, s, k, n);
    }
  }

  lemma ReadyIsUndecided(fw: Firmware, s: Session, img: Image)
    requires Linked(fw) && Ready(fw, s)
    ensures Undecided(fw, s.cache.chip.flash, img, s, 0)
  {
    var f := s.cache.chip.flash;
    NothingStaged(fw, f, img);
    assert CacheStaging(fw, f, img, s.cache, 0) by {
      ViewUncached(s.cache);
    }
  }

  /** Below the old application start a session is waiting, halted, or writing in place. */
  lemma {:induction false} SessionBelow(fw: Firmware, s: Session, img: Image, ticks: seq<nat>, n: nat)
    requires Linked(fw) && Ready(fw, s) && (NoStaleTable(fw, s.cache.chip.flash) ==> !TwoPages(fw, img))
    requires n <= |ticks| && HF2_PAGE_SIZE * n <= AppOffset(fw) && StartKept(fw, s.cache.chip.flash, img, n)
    ensures n <= NEVER
    ensures
      var r := Feed(fw, s, img, ticks, n);
      Undecided(fw, s.cache.chip.flash, img, r, n) || Decided(fw, s.cache.chip.flash, img, r, n)
  {
    hide Undecided, Decided, HandleFlashWrite, NoStaleTable, TwoPages, RunningTable, TableBlock, StaleZero;
    var f := s.cache.chip.flash;
    if n == 0 {
      ReadyIsUndecided(fw, s, img);
    } else {
      SessionBelow(fw, s, img, ticks, n - 1);
      var p := Feed(fw, s, img, ticks, n - 1);
      if Undecided(fw, f, img, p, n - 1) {
        UndecidedPacket(fw, f, img, p, n - 1, ticks[n - 1]);
      } else {
        DecidedPacket(fw, f, img, p, n - 1, ticks[n - 1]);
      }
    }
  }

  /** An image that keeps the bootloader keeps its table. */
  lemma KeptStart(fw: Firmware, f: Image, img: Image, n: nat)
    requires Linked(fw) && KeepsBootloader(fw, f, img) && RunningTable(fw, f)
    ensures StartKept(fw, f, img, n)
  {
    hide TableIn, PageAddress, NoStaleTable;
    if StaleZero(fw, f) {
      SameTable(fw, img, f);
    }
  }

  /** The safe images: the view below the old application start never changes. */
  lemma {:induction false} KeptSession(fw: Firmware, s: Session, img: Image, ticks: seq<nat>, n: nat)
    requires Linked(fw) && Ready(fw, s) && KeepsBootloader(fw, s.cache.chip.flash, img)
    requires n <= |ticks| && n <= NEVER
    ensures Above(fw, s.cache.chip.flash, Feed(fw, s, img, ticks, n).cache)
  {
    hide Undecided, Decided, HandleFlashWrite, NoStaleTable, TwoPages, RunningTable, Safe, KeepsBootloader, Phase,
         View, Ticks;
    var f := s.cache.chip.flash;
    if NoStaleTable(fw, f) && TwoPages(fw, img) {
      SessionPhase(fw, s, img, ticks, n);
      PhaseSafe(fw, f, img, Feed(fw, s, img, ticks, n), n);
    } else if HF2_PAGE_SIZE * n <= AppOffset(fw) {
      KeptStart(fw, f, img, n);
      SessionBelow(fw, s, img, ticks, n);
      if Undecided(fw, f, img, Feed(fw, s, img, ticks, n), n) {
        UndecidedIsSafe(fw, f, img, Feed(fw, s, img, ticks, n), n);
      } else {
        DecidedIsAbove(fw, f, img, Feed(fw, s, img, ticks, n), n);
      }
    } else {
      KeptSession(fw, s, img, ticks, n - 1);
      var p := Feed(fw, s, img, ticks, n - 1);
      PagesAbove(fw, n);
      AboveTicks(fw, f, p.cache, ticks[n - 1]);
      AbovePacket(fw, f, p.(cache := Ticks(p.cache, ticks[n - 1])), PageNo(n - 1), Block(img, n - 1));
    }
  }

  lemma PagesAbove(fw: Firmware, n: nat)
    requires Linked(fw) && AppOffset(fw) < HF2_PAGE_SIZE * n
    ensures n > 0 && AppOffset(fw) <= HF2_PAGE_SIZE * (n - 1)
  {
    var q := WholePages(fw);
  }

  lemma PhaseSafe(fw: Firmware, f: Image, img: Image, s: Session, n: nat)
    requires Linked(fw) && Phase(fw, f, img, s, n)
    ensures Safe(fw, f, s.cache)
  {
  }

  // ---------- the unsafe images ----------

  /** Once pages go to their own addresses they keep doing so, whatever the timer does, as long as the tables are in
      place. */
  lemma {:induction false} DirectRun(fw: Firmware, s: Session, img: Image, ticks: seq<nat>, from: nat, m: nat, n: nat)
    requires Linked(fw) && Ok(s) && from <= m <= n <= |ticks| && 0 < m && HF2_PAGE_SIZE * (n - 1) < AppOffset(fw)
    requires m <= NEVER && Writing(fw, s.cache.chip.flash, img, Feed(fw, s, img, ticks, m), from, m)
    requires StartKept(fw, s.cache.chip.flash, img, n)
    ensures n <= NEVER && Writing(fw, s.cache.chip.flash, img, Feed(fw, s, img, ticks, n), from, n)
  {
    hide Writing, HandleFlashWrite, StaleZero, RunningTable, TableBlock;
    if n > m {
      DirectRun(fw, s, img, ticks, from, m, n - 1);
      var p := Feed(fw, s, img, ticks, n - 1);
      PagesBelow(fw, n - 1);
      WritingPacket(fw, s.cache.chip.flash, img, p, from, n - 1, ticks[n - 1]);
    }
  }

  lemma WritingInPlace(fw: Firmware, f: Image, img: Image, s: Session, from: nat, k: nat)
    requires Linked(fw) && Writing(fw, f, img, s, from, k)
    ensures Ok(s) && InPlace(fw, f, img, View(s.cache), from, k)
  {
  }

  /** A whole image's worth of pages: `first` ticks before the first page, and enough for the cache to be written back
      before page `j`. */
  function TicksFor(first: nat, j: nat): (ticks: seq<nat>)
    ensures |ticks| == NEVER
  {
    seq(NEVER, i requires 0 <= i < NEVER => if i == 0 then first else if i == j then 101 else 0)
  }

  lemma {:induction false} ClockRuns(c: Cache, n: nat)
    requires Inv(c) && Quiet(c) && c.lastFlush == c.ms && n <= 100
    ensures Ticks(c, n) == c.(ms := Wrap(c.ms + n))
  {
    if n > 0 {
      ClockRuns(c, n - 1);
      WrapTwice(c.ms, n);
    }
  }

  lemma WrapTwice(a: Word, n: nat)
    requires 0 < n <= 101
    ensures Wrap(Wrap(a + n - 1) + 1) == Wrap(a + n) && Wrap(Wrap(a + n) - a) == n
  {
    if a + n < 0x1_0000_0000 {
    } else {
      assert Wrap(a + n) == a + n - 0x1_0000_0000;
      assert Wrap(a + n) - a == n - 0x1_0000_0000;
    }
  }

  lemma TickFlushes(t: Cache)
    requires Inv(t) && Quiet(t) && t.lastFlush != 0 && Wrap(Wrap(t.ms + 1) - t.lastFlush) > 100
    ensures Tick(t).addr == NO_CACHE && Tick(t).chip.flash == View(t)
  {
    hide FlushedChip;
    FlushKeepsView(t.(ms := Wrap(t.ms + 1)));
  }

  /** 101 milliseconds after the last flush the cached page is written back. */
  lemma WrittenBack(c: Cache)
    requires Inv(c) && Quiet(c) && c.lastFlush == c.ms != 0
    ensures Ticks(c, 101).addr == NO_CACHE && Ticks(c, 101).chip.flash == View(c)
  {
    hide FlushedChip, Tick, Wrap;
    ClockRuns(c, 100);
    WrapTwice(c.ms, 101);
    TickFlushes(c.(ms := Wrap(c.ms + 100)));
    assert Ticks(c, 101) == Tick(Ticks(c, 100));
  }

  /** Staging continues up to the application start named by the table that was there. */
  lemma {:induction false} StaleRun(fw: Firmware, s: Session, img: Image, ticks: seq<nat>, n: nat)
    requires Linked(fw) && Ready(fw, s) && !NoStaleTable(fw, s.cache.chip.flash) && n <= |ticks| && n <= NEVER
    requires n > 0 ==> FLASH_BASE + HF2_PAGE_SIZE * n <= StaleApp(fw, s.cache.chip.flash)
    ensures StaleStaging(fw, s.cache.chip.flash, img, Feed(fw, s, img, ticks, n), n)
  {
    hide StaleStaging, HandleFlashWrite, NoStaleTable, RunningTable, StaleApp;
    if n == 0 {
      ReadyIsUndecided(fw, s, img);
      StaleAtFirst(fw, s, img);
    } else {
      StaleRun(fw, s, img, ticks, n - 1);
      StaleStagePacket(fw, s.cache.chip.flash, img, Feed(fw, s, img, ticks, n - 1), n - 1, ticks[n - 1]);
    }
  }

  lemma StaleAtFirst(fw: Firmware, s: Session, img: Image)
    requires Linked(fw) && !NoStaleTable(fw, s.cache.chip.flash) && Undecided(fw, s.cache.chip.flash, img, s, 0)
    ensures StaleStaging(fw, s.cache.chip.flash, img, s, 0)
  {
  }

  /** Over a table that was there, writing in place starts at the predicted page, whatever the timer does. */
  lemma StaleStartsDirect(fw: Firmware, s: Session, img: Image, ticks: seq<nat>)
    requires Linked(fw) && Ready(fw, s) && !NoStaleTable(fw, s.cache.chip.flash) && |ticks| == NEVER
    requires HF2_PAGE_SIZE * FirstDirect(fw, s.cache.chip.flash, img) < AppOffset(fw)
    ensures
      var k := FirstDirect(fw, s.cache.chip.flash, img);
      k < NEVER && Writing(fw, s.cache.chip.flash, img, Feed(fw, s, img, ticks, k + 1), k, k + 1)
  {
    hide StaleStaging, HandleFlashWrite, NoStaleTable, RunningTable, StaleApp, StaleDiffers, Writing, FirstDirect;
    var f, k := s.cache.chip.flash, FirstDirect(fw, s.cache.chip.flash, img);
    PagesBelow(fw, k);
    StaleFirstDirect(fw, f, img);
    var p := Feed(fw, s, img, ticks, k);
    if StaleApp(fw, f) < FLASH_BASE {
      StaleRun(fw, s, img, ticks, 0);
      StaleDirectStart(fw, f, img, s, ticks[0]);
    } else {
      StaleRun(fw, s, img, ticks, k);
      StaleWritesOn(fw, f, img, p, k, ticks[k]);
    }
    assert Feed(fw, s, img, ticks, k + 1) ==
      HandleFlashWrite(fw, p.(cache := Ticks(p.cache, ticks[k])), PageNo(k), Block(img, k));
  }

  lemma StaleFirstDirect(fw: Firmware, f: Image, img: Image)
    requires Linked(fw) && !NoStaleTable(fw, f) && HF2_PAGE_SIZE * FirstDirect(fw, f, img) < AppOffset(fw)
    ensures
      var k := FirstDirect(fw, f, img);
      || (k == 0 && StaleApp(fw, f) < FLASH_BASE)
      || (StaleApp(fw, f) == FLASH_BASE + HF2_PAGE_SIZE * k < fw.app && !StaleDiffers(fw, f, img))
  {
    hide NoStaleTable, StaleApp, StagedImage, StagedLen;
    StalePageStart(fw, f);
  }

  /** What a block write does to the clock of the last flush. */
  lemma BlockClock(c: Cache, dst: int, data: seq<Byte>)
    requires Inv(c) && |data| == HF2_PAGE_SIZE
    requires FLASH_BASE <= dst && dst + HF2_PAGE_SIZE < FLASH_END && dst % HF2_PAGE_SIZE == 0
    ensures
      var r := WriteBlock(c, dst, data);
      r.ms == c.ms && r.lastFlush == if c.addr == PageAddress(dst) then c.lastFlush else c.ms
  {
    hide FlushedChip, Overlay, WriteBlock, WriteLoop, InBounds;
    BlockIsChunk(c, dst, data);
  }

  /** The first page stays in the cache while its four blocks arrive, if no ticks come in between. */
  predicate FirstPageCached(fw: Firmware, f: Image, img: Image, s: Session, k: nat, ms: Word)
    requires Linked(fw)
  {
    && Ok(s) && CacheStaging(fw, f, img, s.cache, k) && s.cache.chip.flash == f && s.cache.addr == fw.app
    && !s.changed && !s.found && s.newApp == fw.app && s.cache.ms == s.cache.lastFlush == ms
  }

  lemma FirstBlock(fw: Firmware, s: Session, img: Image, n: nat)
    requires Linked(fw) && Fresh(fw, s)
    ensures
      var r := HandleFlashWrite(fw, s.(cache := Ticks(s.cache, n)), PageNo(0), Block(img, 0));
      FirstPageCached(fw, s.cache.chip.flash, img, r, 1, Ticks(s.cache, n).ms)
  {
    hide View, StagedImage, Window, WriteBlock, TableIn, PageAddress, Ticks;
    var f := s.cache.chip.flash;
    FreshIsStaging(fw, s, img);
    TicksOnlyFlush(s.cache, n);
    TicksKeepStaging(fw, f, img, s.cache, 0, n);
    ViewUncached(s.cache);
    SamePageAddress(fw, 0);
    var c := Ticks(s.cache, n);
    ViewUncached(c);
    BlockWritten(c, Staged(fw, PageNo(0)), Block(img, 0));
    BlockClock(c, Staged(fw, PageNo(0)), Block(img, 0));
    StageWrite(fw, f, img, c, 0);
  }

  lemma NextBlock(fw: Firmware, f: Image, img: Image, s: Session, k: nat, ms: Word)
    requires Linked(fw) && NoStaleTable(fw, f) && FirstPageCached(fw, f, img, s, k, ms) && 0 < k < 4
    ensures FirstPageCached(fw, f, img, HandleFlashWrite(fw, s, PageNo(k), Block(img, k)), k + 1, ms)
  {
    hide View, StagedImage, Window, WriteBlock, TableIn, PageAddress;
    SamePageAddress(fw, k);
    BlockWritten(s.cache, Staged(fw, PageNo(k)), Block(img, k));
    BlockClock(s.cache, Staged(fw, PageNo(k)), Block(img, k));
    StageWrite(fw, f, img, s.cache, k);
  }

  lemma SamePageAddress(fw: Firmware, k: nat)
    requires Linked(fw) && k < 4
    ensures PageAddress(Staged(fw, PageNo(k))) == fw.app && PageAddress(fw.app) == fw.app
    ensures Staged(fw, PageNo(k)) + HF2_PAGE_SIZE < FLASH_END && PageNo(k) < fw.app
      && (PageNo(k) == FLASH_BASE <==> k == 0)
  {
  }

  lemma {:induction false} FirstPageStaysCached(fw: Firmware, s: Session, img: Image, first: nat, j: nat, k: nat)
    requires Linked(fw) && Fresh(fw, s) && 0 < k <= 4 && k <= j
    ensures FirstPageCached(fw, s.cache.chip.flash, img, Feed(fw, s, img, TicksFor(first, j), k), k,
      Ticks(s.cache, first).ms)
  {
    hide FirstPageCached, HandleFlashWrite, NoStaleTable, RunningTable, Ticks;
    var ticks := TicksFor(first, j);
    if k == 1 {
      FirstBlock(fw, s, img, first);
      assert Feed(fw, s, img, ticks, 0) == s && ticks[0] == first;
    } else {
      FirstPageStaysCached(fw, s, img, first, j, k - 1);
      var p := Feed(fw, s, img, ticks, k - 1);
      NoTicks(p);
      NextBlock(fw, s.cache.chip.flash, img, p, k - 1, Ticks(s.cache, first).ms);
    }
  }

  lemma NoTicks(s: Session)
    requires Ok(s)
    ensures s.(cache := Ticks(s.cache, 0)) == s
  {
  }

  lemma CachedIsWaiting(fw: Firmware, f: Image, img: Image, s: Session, k: nat, ms: Word)
    requires Linked(fw) && FirstPageCached(fw, f, img, s, k, ms) && 0 < k <= 4
    ensures SmallWaiting(fw, f, img, s, k)
  {
  }

  /** One page by the image's table: the sixth block finds it, and goes to its own address. */
  lemma OnePageStartsDirect(fw: Firmware, s: Session, img: Image)
    requires Linked(fw) && Fresh(fw, s) && !TwoPages(fw, img)
    requires FirstDirect(fw, s.cache.chip.flash, img) == 5
    ensures Writing(fw, s.cache.chip.flash, img, Feed(fw, s, img, TicksFor(0, NEVER), 6), 5, 6)
  {
    hide HandleFlashWrite, NoStaleTable, RunningTable, TwoPages, FirstPageCached, Writing, SmallWaiting, Recognise,
         Ticks;
    var f, ticks := s.cache.chip.flash, TicksFor(0, NEVER);
    FirstPageStaysCached(fw, s, img, 0, NEVER, 4);
    var s4, s5 := Feed(fw, s, img, ticks, 4), Feed(fw, s, img, ticks, 5);
    NoTicks(s4);
    NoTicks(s5);
    CachedIsWaiting(fw, f, img, s4, 4, Ticks(s.cache, 0).ms);
    NotFoundYet(fw, f, img, s4, 4, Ticks(s.cache, 0).ms);
    SmallStages(fw, f, img, s4, 4, 0);
    assert s5 == HandleFlashWrite(fw, s4, PageNo(4), Block(img, 4));
    FoundAtSix(fw, f, img, s5);
    SmallDirect(fw, f, img, s5, 5, 0);
    assert Feed(fw, s, img, ticks, 6) == HandleFlashWrite(fw, s5, PageNo(5), Block(img, 5));
  }

  lemma NotFoundYet(fw: Firmware, f: Image, img: Image, s: Session, k: nat, ms: Word)
    requires Linked(fw) && NoStaleTable(fw, f) && FirstPageCached(fw, f, img, s, k, ms) && 0 < k <= 4
    ensures !Recognise(fw, s, PageNo(k)).found
  {
    hide Window, TableIn, CacheStaging;
  }

  lemma FoundAtSix(fw: Firmware, f: Image, img: Image, s: Session)
    requires Linked(fw) && SmallWaiting(fw, f, img, s, 5) && NoStaleTable(fw, f) && !TwoPages(fw, img)
    ensures var r := Recognise(fw, s, PageNo(5)); r.found && r.newApp < PageNo(5)
  {
    hide SmallWaiting, Recognise, NoStaleTable, TwoPages, Recognised;
    SmallRecognise(fw, f, img, s, 5);
  }

  /** Enough ticks before the first page that the clock is not at zero, where the timed flush is off. */
  function TicksToStart(c: Cache): nat {
    if c.ms == 0 then 1 else 0
  }

  lemma ClockStarted(c: Cache)
    requires Inv(c) && Quiet(c)
    ensures Ticks(c, TicksToStart(c)).ms != 0
  {
    hide FlushedChip;
    assert Ticks(c, 1) == Tick(Ticks(c, 0));
  }

  /** The flash base or less by the image's table: once the timer has written that table back, the next block finds
      it. */
  lemma NoPageStartsDirect(fw: Firmware, s: Session, img: Image)
    requires Linked(fw) && Fresh(fw, s) && !TwoPages(fw, img) && ImageApp(fw, img) <= FLASH_BASE
    ensures
      var j := fw.vt / HF2_PAGE_SIZE + 1;
      Writing(fw, s.cache.chip.flash, img, Feed(fw, s, img, TicksFor(TicksToStart(s.cache), j), j + 1), j, j + 1)
  {
    hide HandleFlashWrite, NoStaleTable, RunningTable, TwoPages, FirstPageCached, Writing, SmallWaiting, Recognise,
         Ticks, ImageTable, PageAddress, FirstDirect, CacheStaging;
    var f, j := s.cache.chip.flash, fw.vt / HF2_PAGE_SIZE + 1;
    var ticks, ms := TicksFor(TicksToStart(s.cache), j), Ticks(s.cache, TicksToStart(s.cache)).ms;
    ClockStarted(s.cache);
    FirstPageStaysCached(fw, s, img, TicksToStart(s.cache), j, j);
    var p := Feed(fw, s, img, ticks, j);
    CachedIsWaiting(fw, f, img, p, j, ms);
    SmallStart(fw, img);
    FoundWhenBack(fw, f, img, p, j, ms);
    SmallDirect(fw, f, img, p, j, 101);
    assert Feed(fw, s, img, ticks, j + 1) ==
      HandleFlashWrite(fw, p.(cache := Ticks(p.cache, 101)), PageNo(j), Block(img, j));
  }

  lemma FoundWhenBack(fw: Firmware, f: Image, img: Image, s: Session, j: nat, ms: Word)
    requires Linked(fw) && NoStaleTable(fw, f) && FirstPageCached(fw, f, img, s, j, ms) && 0 < j <= 4 && ms != 0
    requires fw.vt < HF2_PAGE_SIZE * j && ValidTable(ImageTable(fw, img)) && ImageApp(fw, img) <= FLASH_BASE
    ensures var r := Recognise(fw, s.(cache := Ticks(s.cache, 101)), PageNo(j)); r.found && r.newApp < PageNo(j)
  {
    hide Window, TableIn, View, StagedImage, PageAddress, Ticks;
    WrittenBack(s.cache);
    ViewWindow(fw, f, img, StagedLen(fw, j));
    StagedAlready(fw, j);
    PageAligned(fw.app);
  }

  /** Any image that disagrees with the running bootloader from that page on overwrites it, with suitable ticks: as
      soon as the first byte that differs arrives. */
  lemma Overwrites(fw: Firmware, s: Session, img: Image)
    requires Linked(fw) && Ready(fw, s) && !KeepsBootloader(fw, s.cache.chip.flash, img)
    ensures !AlwaysSafe(fw, s, img)
  {
    hide Writing, NoStaleTable, TwoPages, RunningTable, Feed, View, ImageTable, PageAddress, StaleApp, StaleDiffers,
         SafeAfter, StartKept, InPlace;
    var f := s.cache.chip.flash;
    var k := FirstDirect(fw, f, img);
    var some :| HF2_PAGE_SIZE * k <= some < AppOffset(fw) && img[some] != f[some];
    var i := FirstDifference(f, img, HF2_PAGE_SIZE * k, some);
    var ticks := UnsafeTicks(fw, s, img);
    UnsafeStart(fw, s, img);
    PageOf(i, k);
    var n := i / HF2_PAGE_SIZE + 1;
    StartUntil(fw, f, img, i);
    DirectRun(fw, s, img, ticks, k, k + 1, n);
    DirectUnsafe(fw, f, img, Feed(fw, s, img, ticks, n), k, n, i);
    NotSafeAfter(fw, s, img, ticks, n);
  }

  lemma {:induction false} FirstDifference(f: Image, img: Image, lo: nat, i: nat) returns (first: nat)
    requires lo <= i < FLASH_SIZE && img[i] != f[i]
    ensures lo <= first <= i && img[first] != f[first] && forall j :: lo <= j < first ==> img[j] == f[j]
  {
    first := lo;
    while img[first] == f[first]
      invariant lo <= first <= i && forall j :: lo <= j < first ==> img[j] == f[j]
      decreases i - first
    {
      first := first + 1;
    }
  }

  /** Up to the page with the first difference, the tables are in place. */
  lemma StartUntil(fw: Firmware, f: Image, img: Image, i: nat)
    requires Linked(fw) && RunningTable(fw, f) && i < AppOffset(fw)
    requires forall j :: HF2_PAGE_SIZE * FirstDirect(fw, f, img) <= j < i ==> img[j] == f[j]
    ensures StartKept(fw, f, img, i / HF2_PAGE_SIZE + 1)
  {
    hide TableIn, PageAddress, NoStaleTable;
    if StaleZero(fw, f) && i / HF2_PAGE_SIZE > TableBlock(fw) {
      PageOf(fw.vt, 0);
      TablePast(fw, i);
      assert Window(img, FLASH_BASE, fw.vt) == Window(f, FLASH_BASE, fw.vt);
    }
  }

  lemma TablePast(fw: Firmware, i: nat)
    requires Linked(fw) && i / HF2_PAGE_SIZE > TableBlock(fw)
    ensures fw.vt + TABLE_SIZE <= i
  {
    assert fw.vt == HF2_PAGE_SIZE * TableBlock(fw) + fw.vt % HF2_PAGE_SIZE;
    assert i >= HF2_PAGE_SIZE * (i / HF2_PAGE_SIZE);
  }

  lemma PageOf(i: nat, k: nat)
    requires HF2_PAGE_SIZE * k <= i
    ensures k <= i / HF2_PAGE_SIZE && HF2_PAGE_SIZE * (i / HF2_PAGE_SIZE) <= i < HF2_PAGE_SIZE * (i / HF2_PAGE_SIZE + 1)
  {
  }

  function UnsafeTicks(fw: Firmware, s: Session, img: Image): (ticks: seq<nat>)
    requires Linked(fw) && Ready(fw, s)
    ensures |ticks| == NEVER
  {
    if NoStaleTable(fw, s.cache.chip.flash) && ImageApp(fw, img) <= FLASH_BASE
    then TicksFor(TicksToStart(s.cache), fw.vt / HF2_PAGE_SIZE + 1)
    else TicksFor(0, NEVER)
  }

  lemma UnsafeStart(fw: Firmware, s: Session, img: Image)
    requires Linked(fw) && Ready(fw, s) && HF2_PAGE_SIZE * FirstDirect(fw, s.cache.chip.flash, img) < AppOffset(fw)
    ensures
      var k := FirstDirect(fw, s.cache.chip.flash, img);
      k < NEVER && Writing(fw, s.cache.chip.flash, img, Feed(fw, s, img, UnsafeTicks(fw, s, img), k + 1), k, k + 1)
  {
    hide Writing, NoStaleTable, TwoPages, RunningTable, Feed, StaleApp, StaleDiffers, TicksFor, View;
    var f := s.cache.chip.flash;
    PagesBelow(fw, FirstDirect(fw, f, img));
    if !NoStaleTable(fw, f) {
      StaleStartsDirect(fw, s, img, UnsafeTicks(fw, s, img));
    } else {
      SmallStart(fw, img);
      if ImageApp(fw, img) <= FLASH_BASE {
        NoPageStartsDirect(fw, s, img);
      } else {
        OnePageStartsDirect(fw, s, img);
      }
    }
  }

  lemma SmallStart(fw: Firmware, img: Image)
    requires Linked(fw)
    ensures !TwoPages(fw, img) ==>
      ValidTable(ImageTable(fw, img)) &&
      (ImageApp(fw, img) <= FLASH_BASE || ImageApp(fw, img) == FLASH_BASE + FLASH_PAGE_SIZE)
  {
    hide Window, TableIn, PageAddress;
    PageAligned(ImageTable(fw, img).application);
  }

  lemma DirectUnsafe(fw: Firmware, f: Image, img: Image, s: Session, from: nat, n: nat, i: nat)
    requires Linked(fw) && Writing(fw, f, img, s, from, n) && i < AppOffset(fw) && img[i] != f[i]
    requires HF2_PAGE_SIZE * from <= i < HF2_PAGE_SIZE * n
    ensures !SameBelow(View(s.cache), f, fw.app)
  {
    hide View, Settled, StartKept;
    assert View(s.cache)[i] == img[i];
  }

  lemma NotSafeAfter(fw: Firmware, s: Session, img: Image, ticks: seq<nat>, n: nat)
    requires Linked(fw) && Ok(s) && n <= |ticks| && n <= NEVER
    requires !SameBelow(View(Feed(fw, s, img, ticks, n).cache), s.cache.chip.flash, fw.app)
    ensures !AlwaysSafe(fw, s, img)
  {
    hide Feed, View;
    assert !SafeAfter(fw, s, img, ticks, n);
  }

  // ---------- the exact condition ----------

  /** Whatever part of the image is sent, and whatever the timer does, the view below the old application
      start stays. */
  ghost predicate AlwaysSafe(fw: Firmware, s: Session, img: Image)
    requires Linked(fw) && Ok(s)
  {
    forall ticks: seq<nat>, n: nat | n <= |ticks| && n <= NEVER :: SafeAfter(fw, s, img, ticks, n)
  }

  predicate SafeAfter(fw: Firmware, s: Session, img: Image, ticks: seq<nat>, n: nat)
    requires Linked(fw) && Ok(s) && n <= |ticks| && n <= NEVER
  {
    SameBelow(View(Feed(fw, s, img, ticks, n).cache), s.cache.chip.flash, fw.app)
  }

  /** Exactly when in-order flashing of an image is safe for the running bootloader, for every image and
      whatever is at the old application start: when the image agrees with it from the first page on that
      may be written in place. */
  lemma SafeIff(fw: Firmware, s: Session, img: Image)
    requires Linked(fw) && Ready(fw, s)
    ensures AlwaysSafe(fw, s, img) <==> KeepsBootloader(fw, s.cache.chip.flash, img)
  {
    hide KeepsBootloader, Feed, View, RunningTable, SameBelow;
    if KeepsBootloader(fw, s.cache.chip.flash, img) {
      forall ticks: seq<nat>, n: nat | n <= |ticks| && n <= NEVER
        ensures SafeAfter(fw, s, img, ticks, n)
      {
        KeptSession(fw, s, img, ticks, n);
        AboveView(fw, s.cache.chip.flash, Feed(fw, s, img, ticks, n).cache);
      }
    } else {
      Overwrites(fw, s, img);
    }
  }

  /** Without a table at the old application start, and with any page from the sixth on that tells image and running
      bootloader apart: when the image's table, if any, names a bootloader of two pages or more. */
  lemma SafeIffTwoPages(fw: Firmware, s: Session, img: Image, k: nat)
    requires Linked(fw) && Fresh(fw, s) && 5 <= k && HF2_PAGE_SIZE * k < AppOffset(fw) && k < NEVER
    requires Block(img, k) != Block(s.cache.chip.flash, k)
    ensures TwoPages(fw, img) <==> AlwaysSafe(fw, s, img)
  {
    hide Feed, View, RunningTable, SameBelow, NoStaleTable, TwoPages, ImageTable, AlwaysSafe, PageAddress;
    SafeIff(fw, s, img);
    PagesBelow(fw, k);
    BlocksDiffer(img, s.cache.chip.flash, k);
  }

  lemma BlocksDiffer(img: Image, f: Image, k: nat)
    requires k < NEVER && Block(img, k) != Block(f, k)
    ensures exists i :: HF2_PAGE_SIZE * k <= i < HF2_PAGE_SIZE * (k + 1) && img[i] != f[i]
  {
    if forall i :: HF2_PAGE_SIZE * k <= i < HF2_PAGE_SIZE * (k + 1) ==> img[i] == f[i] {
      BlocksAgree(img, f, k);
    }
  }

  lemma BlocksAgree(img: Image, f: Image, k: nat)
    requires k < NEVER
    requires forall i :: k * HF2_PAGE_SIZE <= i < (k + 1) * HF2_PAGE_SIZE ==> img[i] == f[i]
    ensures Block(img, k) == Block(f, k)
  {
  }

  /** What an unsafe session leaves behind: from that page on, the running bootloader is the image's, page for page.
      Over a table that names address 0 this is said up to the page that brings another table of its own. */
  lemma OverwrittenFrom(fw: Firmware, s: Session, img: Image, n: nat)
    requires Linked(fw) && Ready(fw, s) && FirstDirect(fw, s.cache.chip.flash, img) < n
      && HF2_PAGE_SIZE * n <= AppOffset(fw) && StartKept(fw, s.cache.chip.flash, img, n)
    ensures n <= NEVER
    ensures
      var f := s.cache.chip.flash;
      InPlace(fw, f, img, View(Feed(fw, s, img, UnsafeTicks(fw, s, img), n).cache), FirstDirect(fw, f, img), n)
  {
    hide NoStaleTable, TwoPages, RunningTable, Feed, StaleApp, StaleDiffers, InPlace, View, UnsafeTicks,
         FirstDirect, Writing, StartKept;
    var f, k := s.cache.chip.flash, FirstDirect(fw, s.cache.chip.flash, img);
    UnsafeStart(fw, s, img);
    DirectRun(fw, s, img, UnsafeTicks(fw, s, img), k, k + 1, n);
    WritingInPlace(fw, f, img, Feed(fw, s, img, UnsafeTicks(fw, s, img), n), k, n);
  }

  /** A valid table that already sits at the old application start is taken for the image's own: it alone decides
      whether the first page of a session is staged or written over the running bootloader. */
  lemma StaleTableDecides(fw: Firmware, s: Session, data: seq<Byte>)
    requires Linked(fw) && Ok(s) && s.cache.addr == NO_CACHE && Quiet(s.cache) && |data| == HF2_PAGE_SIZE
    requires !NoStaleTable(fw, s.cache.chip.flash)
    ensures
      var f := s.cache.chip.flash;
      var r := HandleFlashWrite(fw, s, FLASH_BASE, data);
      && r.found && r.newApp == StaleApp(fw, f)
      && View(r.cache) == Overlay(f, if StaleApp(fw, f) > FLASH_BASE then AppOffset(fw) else 0, data)
  {
    hide View, WriteBlock, NoStaleTable, StaleApp, HandleFlashWrite, Overlay, Flush;
    var a := if StaleApp(fw, s.cache.chip.flash) > FLASH_BASE then fw.app else FLASH_BASE;
    StaleFirstPacket(fw, s, data);
    ViewUncached(s.cache);
    NothingToFlush(s.cache);
    ViewUncached(Flush(s.cache));
    BlockWritten(s.cache, a, data);
    BlockWritten(Flush(s.cache), a, data);
  }

  /** The block goes where that table says, after the flush that precedes the comparison if it names the flash base. */
  lemma StaleFirstPacket(fw: Firmware, s: Session, data: seq<Byte>)
    requires Linked(fw) && Ok(s) && s.cache.addr == NO_CACHE && Quiet(s.cache) && |data| == HF2_PAGE_SIZE
    requires !NoStaleTable(fw, s.cache.chip.flash)
    ensures
      var f := s.cache.chip.flash;
      var a := if StaleApp(fw, f) > FLASH_BASE then fw.app else FLASH_BASE;
      var r := HandleFlashWrite(fw, s, FLASH_BASE, data);
      && r.found && r.newApp == StaleApp(fw, f) && a % HF2_PAGE_SIZE == 0
      && (r.cache == WriteBlock(s.cache, a, data) || r.cache == WriteBlock(Flush(s.cache), a, data))
  {
    hide View, WriteBlock, Recognise, NoStaleTable, RecognisedStale, StaleApp, Differs, HandleFlashWrite, Flush,
         BootloaderUpdate;
    var r := Recognise(fw, s, FLASH_BASE);
    StaleAtBase(fw, s);
    StaleAnyCache(fw, s.cache.chip.flash, r, r.cache);
    PacketPlaced(fw, s, FLASH_BASE);
    PacketCases(fw, s, FLASH_BASE, data);
    PageBlocks(fw.app);
    if r.newApp == FLASH_BASE {
      EmptyUpdate(fw, s, r);
    }
  }

  lemma NothingToFlush(c: Cache)
    requires Inv(c) && c.addr == NO_CACHE && Quiet(c)
    ensures Flush(c).chip == c.chip && Flush(c).addr == NO_CACHE && Quiet(Flush(c))
  {
  }

  lemma EmptyUpdate(fw: Firmware, s: Session, r: Session)
    requires Linked(fw) && Ok(s) && s.cache.addr == NO_CACHE && Quiet(s.cache)
    requires RecognisedStale(fw, s.cache.chip.flash, r) && r.newApp == FLASH_BASE
    ensures BootloaderUpdate(fw, Flush(s.cache), r.newBootSize, r.newBaseSize, FLASH_BASE) == (Flush(s.cache), false)
  {
    hide RecognisedStale, Differs, Flush;
    NothingToFlush(s.cache);
    EmptyComparison(fw, s, r);
  }

  lemma StaleAtBase(fw: Firmware, s: Session)
    requires Linked(fw) && Ok(s) && !NoStaleTable(fw, s.cache.chip.flash)
    ensures RecognisedStale(fw, s.cache.chip.flash, Recognise(fw, s, FLASH_BASE))
  {
    hide Window, TableIn, PageAddress;
  }

  /** A bootloader of no length is the same as the running one. */
  lemma EmptyComparison(fw: Firmware, s: Session, r: Session)
    requires Linked(fw) && RecognisedStale(fw, s.cache.chip.flash, r) && r.newApp == FLASH_BASE
    ensures r.newBootSize == 0 && !Differs(s.cache.chip.flash, fw.app, 0)
  {
    hide Window, TableIn, PageAddress, FlashByte;
  }

  /** Over a table that names a start between the flash base and the old application start, with room for the staging:
      safe exactly if the image differs from the running bootloader below that start or agrees with all of it. */
  lemma StaleSafeIff(fw: Firmware, s: Session, img: Image)
    requires Linked(fw) && Ready(fw, s) && !NoStaleTable(fw, s.cache.chip.flash)
    requires FLASH_BASE < StaleApp(fw, s.cache.chip.flash) < fw.app
    requires AppOffset(fw) + (StaleApp(fw, s.cache.chip.flash) - FLASH_BASE) < FLASH_SIZE
    ensures
      var f := s.cache.chip.flash;
      var size := StaleApp(fw, f) - FLASH_BASE;
      AlwaysSafe(fw, s, img) <==> (img[..size] != f[..size] || img[..AppOffset(fw)] == f[..AppOffset(fw)])
  {
    hide Feed, View, RunningTable, NoStaleTable, AlwaysSafe, StaleApp, Differs, StagedImage;
    var f := s.cache.chip.flash;
    var size := StaleApp(fw, f) - FLASH_BASE;
    SafeIff(fw, s, img);
    StalePageStart(fw, f);
    WholeStaging(fw, size);
    DiffersIff(fw, f, img, size);
    if img[..size] == f[..size] {
      AgreeFrom(f, img, size, AppOffset(fw));
    }
  }

  lemma WholeStaging(fw: Firmware, size: nat)
    requires Linked(fw) && size % FLASH_PAGE_SIZE == 0 && AppOffset(fw) + size < FLASH_SIZE
    ensures StagedLen(fw, size / HF2_PAGE_SIZE) == size == HF2_PAGE_SIZE * (size / HF2_PAGE_SIZE)
  {
  }

  lemma StagedBytes(fw: Firmware, f: Image, img: Image, size: nat, i: nat)
    requires Linked(fw) && i < size <= AppOffset(fw) && AppOffset(fw) + size <= FLASH_SIZE
    ensures
      var g := StagedImage(fw, f, img, size);
      FlashByte(g, FLASH_BASE + i) == f[i] && FlashByte(g, FLASH_BASE + i + (fw.app - FLASH_BASE)) == img[i]
  {
  }

  /** With the staging complete, the comparison is that of the image with the running bootloader. */
  lemma DiffersIff(fw: Firmware, f: Image, img: Image, size: nat)
    requires Linked(fw) && size <= AppOffset(fw) && AppOffset(fw) + size <= FLASH_SIZE
    ensures Differs(StagedImage(fw, f, img, size), fw.app, size) <==> img[..size] != f[..size]
  {
    hide StagedImage, FlashByte;
    var g := StagedImage(fw, f, img, size);
    if Differs(g, fw.app, size) {
      var a :| FLASH_BASE <= a < FLASH_BASE + size && FlashByte(g, a) != FlashByte(g, a + (fw.app - FLASH_BASE));
      StagedBytes(fw, f, img, size, a - FLASH_BASE);
      assert img[..size][a - FLASH_BASE] != f[..size][a - FLASH_BASE];
    } else {
      forall i | 0 <= i < size
        ensures img[i] == f[i]
      {
        StagedBytes(fw, f, img, size, i);
        assert FlashByte(g, FLASH_BASE + i) == FlashByte(g, FLASH_BASE + i + (fw.app - FLASH_BASE));
      }
      PrefixAgrees(img, f, size);
    }
  }

  lemma AgreeFrom(f: Image, img: Image, size: nat, len: nat)
    requires size <= len <= FLASH_SIZE && img[..size] == f[..size]
    ensures (forall i :: size <= i < len ==> img[i] == f[i]) <==> img[..len] == f[..len]
  {
    if img[..len] == f[..len] {
      forall i | 0 <= i < len
        ensures img[i] == f[i]
      {
        assert img[..len][i] == f[..len][i];
      }
    } else if forall i :: size <= i < len ==> img[i] == f[i] {
      forall i | 0 <= i < len
        ensures img[i] == f[i]
      {
        if i < size {
          assert img[..size][i] == f[..size][i];
        }
      }
      PrefixAgrees(img, f, len);
    }
  }
}
