// hf2.c: installing an application while the bootloader stays as it is.

module Hf2Install {
  import opened Platform
  import opened FlashHardware
  import opened Baseloader
  import opened PageCache
  import opened Hf2Flashing
  import opened Hf2Safety

  /** Flash `f` with the first `len` image bytes in place, over the remains of the staging. */
  function InstalledImage(fw: Firmware, f: Image, img: Image, len: nat): (g: Image)
    requires Linked(fw) && 2 * AppOffset(fw) <= FLASH_SIZE && AppOffset(fw) <= len <= FLASH_SIZE
    ensures g[AppOffset(fw)..len] == img[AppOffset(fw)..len]
    ensures g[..AppOffset(fw)] == f[..AppOffset(fw)]
  {
    Overlay(StagedImage(fw, f, img, AppOffset(fw)), AppOffset(fw), img[AppOffset(fw)..len])
  }

  /** The state from the first application page on, when the bootloader is unchanged. */
  predicate Installing(fw: Firmware, f: Image, img: Image, s: Session, k: nat)
    requires Linked(fw) && 2 * AppOffset(fw) < FLASH_SIZE && AppOffset(fw) <= HF2_PAGE_SIZE * k <= FLASH_SIZE
  {
    && Ok(s) && Quiet(s.cache) && s.found && s.newApp == fw.app && !s.changed
    && View(s.cache) == InstalledImage(fw, f, img, HF2_PAGE_SIZE * k)
  }

  lemma SameBootloaderSameApp(fw: Firmware, f: Image, img: Image)
    requires Linked(fw) && RunningTable(fw, f) && SameBootloader(fw, f, img)
    ensures ImageApp(fw, img) == fw.app
  {
    forall i | fw.vt <= i < fw.vt + TABLE_SIZE
      ensures img[i] == f[i]
    {
      assert img[..AppOffset(fw)][i] == f[..AppOffset(fw)][i];
    }
    assert Window(img, FLASH_BASE, fw.vt) == Window(f, FLASH_BASE, fw.vt);
  }

  lemma SameDoesNotDiffer(fw: Firmware, f: Image, img: Image)
    requires Linked(fw) && SameBootloader(fw, f, img) && 2 * AppOffset(fw) < FLASH_SIZE
    ensures !Differs(StagedImage(fw, f, img, AppOffset(fw)), fw.app, AppOffset(fw))
  {
    var g := StagedImage(fw, f, img, AppOffset(fw));
    forall a | FLASH_BASE <= a < FLASH_BASE + AppOffset(fw)
      ensures FlashByte(g, a) == FlashByte(g, a + (fw.app - FLASH_BASE))
    {
      assert img[..AppOffset(fw)][a - FLASH_BASE] == f[..AppOffset(fw)][a - FLASH_BASE];
    }
  }

  lemma InstallStep(fw: Firmware, f: Image, img: Image, k: nat)
    requires Linked(fw) && 2 * AppOffset(fw) < FLASH_SIZE && AppOffset(fw) <= HF2_PAGE_SIZE * k
      && k < FLASH_SIZE / HF2_PAGE_SIZE
    ensures Overlay(InstalledImage(fw, f, img, HF2_PAGE_SIZE * k), HF2_PAGE_SIZE * k, Block(img, k)) ==
      InstalledImage(fw, f, img, HF2_PAGE_SIZE * (k + 1))
  {
    var staged := StagedImage(fw, f, img, AppOffset(fw));
    OverlayTwice(staged, AppOffset(fw), img[AppOffset(fw)..HF2_PAGE_SIZE * k], Block(img, k));
    assert img[AppOffset(fw)..HF2_PAGE_SIZE * k] + Block(img, k) == img[AppOffset(fw)..HF2_PAGE_SIZE * (k + 1)];
  }

  lemma InstallPacket(fw: Firmware, f: Image, img: Image, s: Session, k: nat, n: nat)
    requires Linked(fw) && 2 * AppOffset(fw) < FLASH_SIZE && AppOffset(fw) < HF2_PAGE_SIZE * k
    requires k + 1 < FLASH_SIZE / HF2_PAGE_SIZE && Installing(fw, f, img, s, k)
    ensures Installing(fw, f, img, HandleFlashWrite(fw, s.(cache := Ticks(s.cache, n)), PageNo(k), Block(img, k)),
      k + 1)
  {
    hide View, InstalledImage, WriteBlock, Ticks, HandleFlashWrite;
    TicksOnlyFlush(s.cache, n);
    BlockWritten(Ticks(s.cache, n), PageNo(k), Block(img, k));
    InstallStep(fw, f, img, k);
    AppPacket(fw, s.(cache := Ticks(s.cache, n)), k, Block(img, k));
  }

  /** Past the application start, pages are written to their own addresses. */
  lemma AppPacket(fw: Firmware, s: Session, k: nat, data: seq<Byte>)
    requires Linked(fw) && Ok(s) && s.found && !s.changed && s.newApp == fw.app
    requires AppOffset(fw) < HF2_PAGE_SIZE * k && k < FLASH_SIZE / HF2_PAGE_SIZE && |data| == HF2_PAGE_SIZE
    ensures HandleFlashWrite(fw, s, PageNo(k), data) == s.(cache := WriteBlock(s.cache, PageNo(k), data))
  {
    hide WriteBlock, BootloaderUpdate, Window, TableIn;
  }

  /** The first application page, once the session has decided that nothing changed. */
  lemma FirstInstall(fw: Firmware, f: Image, img: Image, s: Session, c: Cache, k: nat)
    requires Linked(fw) && 2 * AppOffset(fw) < FLASH_SIZE && HF2_PAGE_SIZE * k == AppOffset(fw) && k + 1 < NEVER
    requires Inv(c) && Quiet(c) && c.addr == NO_CACHE && c.chip.flash == StagedImage(fw, f, img, AppOffset(fw))
    requires Ok(s) && s.found && s.newApp == fw.app && !s.changed && s.cache == WriteBlock(c, PageNo(k), Block(img, k))
    ensures Installing(fw, f, img, s, k + 1)
  {
    hide View, InstalledImage, WriteBlock, StagedImage;
    ViewUncached(c);
    BlockWritten(c, PageNo(k), Block(img, k));
    InstallStart(fw, f, img);
    InstallStep(fw, f, img, k);
  }

  lemma FirstInstallPacket(fw: Firmware, f: Image, img: Image, s: Session, k: nat, n: nat)
    requires Linked(fw) && RunningTable(fw, f) && SameBootloader(fw, f, img) && 2 * AppOffset(fw) < FLASH_SIZE
    requires HF2_PAGE_SIZE * k == AppOffset(fw) && k + 1 < NEVER
    requires if NoStaleTable(fw, f) then Staging(fw, f, img, s, k)
             else StaleApp(fw, f) == fw.app && StaleStaging(fw, f, img, s, k)
    ensures Ok(s)
    ensures Installing(fw, f, img, HandleFlashWrite(fw, s.(cache := Ticks(s.cache, n)), PageNo(k), Block(img, k)),
      k + 1)
  {
    hide View, InstalledImage, WriteBlock, Ticks, Flush, HandleFlashWrite, Window, Differs, StagedImage, CacheStaging,
         RunningTable, NoStaleTable, Safe, Inv, StaleApp, Recognised, RecognisedStale, Installing;
    var c := Flush(Ticks(s.cache, n));
    WholeStaged(fw, k);
    SameDoesNotDiffer(fw, f, img);
    if NoStaleTable(fw, f) {
      SameBootloaderSameApp(fw, f, img);
      FirstAppPacket(fw, f, img, s, k, n);
    } else {
      StaleFirstApp(fw, f, img, s, k, n);
    }
    FirstInstall(fw, f, img, HandleFlashWrite(fw, s.(cache := Ticks(s.cache, n)), PageNo(k), Block(img, k)), c, k);
  }

  lemma WholeStaged(fw: Firmware, k: nat)
    requires Linked(fw) && 2 * AppOffset(fw) < FLASH_SIZE && HF2_PAGE_SIZE * k == AppOffset(fw)
    ensures StagedLen(fw, k) == AppOffset(fw)
  {
  }

  lemma InstallStart(fw: Firmware, f: Image, img: Image)
    requires Linked(fw) && 2 * AppOffset(fw) < FLASH_SIZE
    ensures InstalledImage(fw, f, img, AppOffset(fw)) == StagedImage(fw, f, img, AppOffset(fw))
  {
    assert img[AppOffset(fw)..AppOffset(fw)] == [];
  }

  /** No table at the old application start, or one that names it, as an equal-size update leaves behind. */
  predicate Harmless(fw: Firmware, f: Image)
    requires Linked(fw)
  {
    NoStaleTable(fw, f) || StaleApp(fw, f) == fw.app
  }

  /** A device that runs the image's bootloader, with room for a second copy of it. */
  predicate Installable(fw: Firmware, s: Session, img: Image)
    requires Linked(fw)
  {
    Ready(fw, s) && Harmless(fw, s.cache.chip.flash) && SameBootloader(fw, s.cache.chip.flash, img)
    && 2 * AppOffset(fw) < FLASH_SIZE
  }

  lemma {:induction false} UnchangedInstalls(fw: Firmware, s: Session, img: Image, ticks: seq<nat>, n: nat)
    requires Linked(fw) && Installable(fw, s, img)
    requires n <= |ticks| && n < FLASH_SIZE / HF2_PAGE_SIZE && AppOffset(fw) < HF2_PAGE_SIZE * n
    ensures Installing(fw, s.cache.chip.flash, img, Feed(fw, s, img, ticks, n), n)
  {
    hide Installing, HandleFlashWrite, SameBootloader, Staging, StaleStaging, Safe, View, TwoPages, StagingEnd,
         RunningTable, NoStaleTable, StaleApp, Quiet, Phase, Ticks;
    var f := s.cache.chip.flash;
    var p := Feed(fw, s, img, ticks, n - 1);
    if HF2_PAGE_SIZE * (n - 1) == AppOffset(fw) {
      if NoStaleTable(fw, f) {
        SameMeansTwoPages(fw, f, img);
        SessionPhase(fw, s, img, ticks, n - 1);
        StagingAt(fw, f, img, p, n - 1);
      } else {
        StaleRun(fw, s, img, ticks, n - 1);
      }
      FirstInstallPacket(fw, f, img, p, n - 1, ticks[n - 1]);
    } else {
      WholeBlocks(fw, n);
      UnchangedInstalls(fw, s, img, ticks, n - 1);
      InstallPacket(fw, f, img, p, n - 1, ticks[n - 1]);
    }
  }

  lemma SameMeansTwoPages(fw: Firmware, f: Image, img: Image)
    requires Linked(fw) && RunningTable(fw, f) && SameBootloader(fw, f, img)
    ensures TwoPages(fw, img) && StagingEnd(fw, img) == fw.app
  {
    SameBootloaderSameApp(fw, f, img);
  }

  lemma WholeBlocks(fw: Firmware, n: nat)
    requires Linked(fw) && AppOffset(fw) < HF2_PAGE_SIZE * n && AppOffset(fw) != HF2_PAGE_SIZE * (n - 1)
    ensures AppOffset(fw) < HF2_PAGE_SIZE * (n - 1)
  {
    var q := WholePages(fw);
  }

  /** An image with the running bootloader, ending below the last block: after the stream and the flush that precedes
      the restart, the application region holds exactly the image's application, although its pages were used for
      staging first, and the bootloader is as before. */
  lemma UnchangedSession(fw: Firmware, s: Session, img: Image, ticks: seq<nat>, n: nat)
    requires Linked(fw) && Installable(fw, s, img)
    requires n <= |ticks| && n < FLASH_SIZE / HF2_PAGE_SIZE && AppOffset(fw) < HF2_PAGE_SIZE * n
    ensures
      var r := Feed(fw, s, img, ticks, n);
      var g := Flush(r.cache).chip.flash;
      && !r.changed
      && g[AppOffset(fw)..HF2_PAGE_SIZE * n] == img[AppOffset(fw)..HF2_PAGE_SIZE * n]
      && g[..AppOffset(fw)] == s.cache.chip.flash[..AppOffset(fw)]
  {
    hide View, FlushedChip, HandleFlashWrite;
    UnchangedInstalls(fw, s, img, ticks, n);
    FlushKeepsView(Feed(fw, s, img, ticks, n).cache);
  }
}
