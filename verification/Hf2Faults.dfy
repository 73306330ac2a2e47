// hf2.c: flashing sessions on hardware whose operations may time out at any point.

module Hf2Faults {
  import opened Platform
  import opened FlashHardware
  import opened Baseloader
  import opened PageCache
  import opened Hf2Flashing
  import opened Hf2Safety

  // ---------- what a write-back can leave ----------

  /** `w` is the first `p` bytes of `x`, and erased from there. */
  predicate TornAt(w: seq<Byte>, x: seq<Byte>, p: nat) {
    |w| == |x| && p <= |x| && forall i :: 0 <= i < |x| ==> w[i] == if i < p then x[i] else ERASED
  }

  lemma TornTwice(w: seq<Byte>, x: seq<Byte>, y: seq<Byte>, p: nat, q: nat)
    requires TornAt(w, x, p) && TornAt(x, y, q)
    ensures TornAt(w, y, if p < q then p else q)
  {
  }

  lemma TornWhole(w: seq<Byte>)
    ensures TornAt(w, w, |w|)
  {
  }

  /** The source of the copy loop at `s` is the buffer from `k` on, in RAM. */
  predicate BufferAt(ram: Ram, buf: Page, s: int, k: nat) {
    s % 2 == 0 && k <= FLASH_PAGE_SIZE && RAM_BASE <= s && s + FLASH_PAGE_SIZE - k <= RAM_END &&
    forall i :: s - RAM_BASE <= i < s - RAM_BASE + FLASH_PAGE_SIZE - k ==> ram[i] == buf[k + i - (s - RAM_BASE)]
  }

  /** The page holds the buffer up to `d`, and is erased from there. */
  predicate WrittenTo(flash: Image, page: int, buf: Page, d: int)
    requires PageInFlash(page)
  {
    page <= d <= page + FLASH_PAGE_SIZE && TornAt(PageAt(flash, page), buf, d - page)
  }

  lemma WrittenIsPrimed(flash: Image, page: int, buf: Page, d: int)
    requires PageInFlash(page) && page % FLASH_PAGE_SIZE == 0 && page < d < page + FLASH_PAGE_SIZE && d % 2 == 0
    requires WrittenTo(flash, page, buf, d)
    ensures CellInFlash(d) && PageAddress(d) == page && Primed(flash, d, d, page + FLASH_PAGE_SIZE)
  {
    QuotientIs(d, page / FLASH_PAGE_SIZE, d - page);
    forall i | d - FLASH_BASE <= i < page + FLASH_PAGE_SIZE - FLASH_BASE
      ensures flash[i] == ERASED
    {
      assert PageAt(flash, page)[i - (page - FLASH_BASE)] == flash[i];
    }
  }

  /** Programming the next cell carries the page on. */
  lemma WriteOneMore(flash: Image, ram: Ram, page: int, buf: Page, d: int, s: int)
    requires PageInFlash(page) && page <= d && CellInFlash(d) && d + 2 <= page + FLASH_PAGE_SIZE
    requires WrittenTo(flash, page, buf, d) && BufferAt(ram, buf, s, d - page)
    ensures WrittenTo(ProgrammedImage(flash, d, PeekHalfWord(flash, ram, s)), page, buf, d + 2)
  {
    var v, k := PeekHalfWord(flash, ram, s), d - page;
    assert ram[s - RAM_BASE] == buf[k] && ram[s + 1 - RAM_BASE] == buf[k + 1];
    assert v == HalfWord(buf[k], buf[k + 1]);
    var x := PageAt(flash, page);
    assert x[k] == ERASED && x[k + 1] == ERASED;
    var y := PageAt(ProgrammedImage(flash, d, v), page);
    forall i | 0 <= i < FLASH_PAGE_SIZE
      ensures y[i] == if i < k + 2 then buf[i] else ERASED
    {
      assert y[i] == if i == k then v.lo else if i == k + 1 then v.hi else x[i];
    }
  }

  /** Wherever the copy of a page stops, the page is the buffer up to there, and erased from there. */
  lemma {:induction false} TornLoop(c: Chip, ram: Ram, page: int, buf: Page, d: int, s: int) returns (p: nat)
    requires PageInFlash(page) && page < d <= page + FLASH_PAGE_SIZE && d % 2 == 0 && s % 2 == 0
    requires WrittenTo(c.flash, page, buf, d) && BufferAt(ram, buf, s, d - page)
    ensures
      var n := (page + FLASH_PAGE_SIZE - d) / 2;
      TornAt(PageAt(CopyLoop(false, c, ram, d, s, n, d, page + FLASH_PAGE_SIZE).0.flash, page), buf, p)
    decreases page + FLASH_PAGE_SIZE - d
  {
    hide Iteration, TornAt, CopyLoop, PageAddress;
    var n, top := (page + FLASH_PAGE_SIZE - d) / 2, page + FLASH_PAGE_SIZE;
    if d == top {
      CopyLoopDone(false, c, ram, d, s, d, top);
      return d - page;
    }
    WrittenIsPrimed(c.flash, page, buf, d);
    CopyLoopNext(false, c, ram, d, s, n, d, top);
    IterationShape(c, ram, d, s, false);
    WriteOneMore(c.flash, ram, page, buf, d, s);
    EvenNext(d);
    EvenNext(s);
    assert (top - (d + 2)) / 2 == n - 1;
    var (c', exit) := Iteration(c, ram, d, s, false);
    if exit == Copied {
      p := TornLoop(c', ram, page, buf, d + 2, s + 2);
    } else {
      p := if c'.flash == c.flash then d - page else d + 2 - page;
    }
  }

  lemma ErasedPage(flash: Image, page: int, buf: Page)
    requires PageInFlash(page)
    ensures WrittenTo(ErasedImage(flash, page), page, buf, page)
  {
  }

  /** What a write-back of a page leaves, whatever times out: the page as it was, or the buffer up to some point. */
  lemma ProgramPageTorn(c: Chip, page: int, buf: Page) returns (p: nat)
    requires PageInFlash(page)
    ensures
      var x := PageAt(ProgramPage(c, page, buf).flash, page);
      x == PageAt(c.flash, page) || TornAt(x, buf, p)
  {
    hide Iteration, TornAt, CopyLoop, PageAddress, ErasedImage, ProgrammedImage;
    var ram := RamWith(buf);
    PagePreview(c, page, ram);
    CopyLoopNext(false, c, ram, page, FLASH_BUF, FLASH_PAGE_SIZE / 2, 0, 0);
    AlignedPage(page);
    IterationShape(c, ram, page, FLASH_BUF, true);
    ErasedPage(c.flash, page, buf);
    BufferInRam(buf);
    WriteOneMore(ErasedImage(c.flash, page), ram, page, buf, page, FLASH_BUF);
    var (c', exit) := Iteration(c, ram, page, FLASH_BUF, true);
    if exit == Copied {
      p := TornLoop(c', ram, page, buf, page + 2, FLASH_BUF + 2);
    } else {
      p := if c'.flash == ErasedImage(c.flash, page) then 0 else 2;
    }
  }

  lemma BufferInRam(buf: Page)
    ensures BufferAt(RamWith(buf), buf, FLASH_BUF, 0) && BufferAt(RamWith(buf), buf, FLASH_BUF + 2, 2)
  {
  }

  // ---------- the table at the old application start ----------

  /** Where a table is looked for in a page. */
  function WindowIn(page: seq<Byte>, vt: nat): (w: seq<Byte>)
    requires |page| == FLASH_PAGE_SIZE && vt + TABLE_SIZE <= FLASH_PAGE_SIZE
    ensures |w| == TABLE_SIZE
  {
    page[vt..vt + TABLE_SIZE]
  }

  /** The bytes where a table is looked for are those of `f`, or those of the image, up to some point, and erased from
      there. */
  ghost predicate Possible(fw: Firmware, f: Image, img: Image, w: seq<Byte>)
    requires Linked(fw)
  {
    || (exists p :: TornAt(w, Window(f, fw.app, fw.vt), p))
    || (exists p :: TornAt(w, Window(img, FLASH_BASE, fw.vt), p))
  }

  lemma TornPossible(fw: Firmware, f: Image, img: Image, w: seq<Byte>, x: seq<Byte>, p: nat)
    requires Linked(fw) && Possible(fw, f, img, x) && TornAt(w, x, p)
    ensures Possible(fw, f, img, w)
  {
    hide TornAt, Window;
    if q :| TornAt(x, Window(f, fw.app, fw.vt), q) {
      TornTwice(w, x, Window(f, fw.app, fw.vt), p, q);
    } else {
      var q :| TornAt(x, Window(img, FLASH_BASE, fw.vt), q);
      TornTwice(w, x, Window(img, FLASH_BASE, fw.vt), p, q);
    }
  }

  /** A torn table is no table. */
  lemma ValidIsWhole(w: seq<Byte>, x: seq<Byte>, p: nat)
    requires |w| == TABLE_SIZE && TornAt(w, x, p) && ValidTable(TableIn(w))
    ensures w == x
  {
    assert w[23] != ERASED;
  }

  lemma PossibleValid(fw: Firmware, f: Image, img: Image, w: seq<Byte>)
    requires Linked(fw) && |w| == TABLE_SIZE && Possible(fw, f, img, w) && ValidTable(TableIn(w)) && NoStaleTable(fw, f)
    ensures w == Window(img, FLASH_BASE, fw.vt) && ValidTable(ImageTable(fw, img))
  {
    hide TornAt, Window, TableIn;
    if p :| TornAt(w, Window(f, fw.app, fw.vt), p) {
      ValidIsWhole(w, Window(f, fw.app, fw.vt), p);
    } else {
      var p :| TornAt(w, Window(img, FLASH_BASE, fw.vt), p);
      ValidIsWhole(w, Window(img, FLASH_BASE, fw.vt), p);
    }
  }

  lemma TornWindow(x: seq<Byte>, y: seq<Byte>, vt: nat, p: nat)
    requires |x| == FLASH_PAGE_SIZE && TornAt(x, y, p) && vt + TABLE_SIZE <= FLASH_PAGE_SIZE
    ensures TornAt(WindowIn(x, vt), WindowIn(y, vt), Within(p, vt))
  {
    var v, w := WindowIn(x, vt), WindowIn(y, vt);
    forall i | 0 <= i < TABLE_SIZE
      ensures v[i] == if i < Within(p, vt) then w[i] else ERASED
    {
      assert v[i] == x[vt + i] && w[i] == y[vt + i];
      assert x[vt + i] == if vt + i < p then y[vt + i] else ERASED;
    }
  }

  /** How much of a table at `vt` lies before `p`. */
  function Within(p: nat, vt: nat): nat {
    if p < vt then 0 else if p - vt < TABLE_SIZE then p - vt else TABLE_SIZE
  }

  lemma WindowOfPage(fw: Firmware, f: Image)
    requires Linked(fw)
    ensures Window(f, fw.app, fw.vt) == WindowIn(PageAt(f, fw.app), fw.vt)
  {
    SliceOfSlice(f, AppOffset(fw), FLASH_PAGE_SIZE, fw.vt, TABLE_SIZE);
  }

  // ---------- the cache ----------

  /** The cache while bootloader pages are staged, on any hardware, after `k` pages. */
  ghost predicate CacheFault(fw: Firmware, f: Image, img: Image, c: Cache, k: nat)
    requires Linked(fw)
  {
    && Safe(fw, f, c)
    && (c.addr == NO_CACHE || (k > 0 && fw.app <= c.addr <= fw.app + HF2_PAGE_SIZE * (k - 1)))
    && (k >= 5 ==> c.addr != fw.app)
    && Possible(fw, f, img, Window(c.chip.flash, fw.app, fw.vt))
    && (c.addr == fw.app ==> Possible(fw, f, img, WindowIn(c.buf, fw.vt)))
  }

  lemma OtherPage(fw: Firmware, c: Cache)
    requires Linked(fw) && Inv(c) && c.addr != fw.app && (c.addr == NO_CACHE || c.addr >= fw.app)
    ensures Window(Flush(c).chip.flash, fw.app, fw.vt) == Window(c.chip.flash, fw.app, fw.vt)
  {
    hide FlushedChip, SameOutside, PageAddress, Confined, Window;
    FlushConfined(c);
    if c.addr != NO_CACHE {
      ConfinedImage(c.chip, Flush(c).chip, c.addr, c.addr + FLASH_PAGE_SIZE);
      PageBelow(fw.app, c.addr);
      AlignedPage(fw.app);
      WindowApart(fw, c.chip.flash, Flush(c).chip.flash, c.addr);
    }
  }

  lemma WindowApart(fw: Firmware, f: Image, g: Image, page: int)
    requires Linked(fw) && fw.app + FLASH_PAGE_SIZE <= page && SameOutside(f, g, page, page + FLASH_PAGE_SIZE)
    ensures Window(g, fw.app, fw.vt) == Window(f, fw.app, fw.vt)
  {
    var o := AppOffset(fw) + fw.vt;
    assert g[o..o + TABLE_SIZE] == f[o..o + TABLE_SIZE];
  }

  lemma FaultFlush(fw: Firmware, f: Image, img: Image, c: Cache, k: nat)
    requires Linked(fw) && CacheFault(fw, f, img, c, k)
    ensures CacheFault(fw, f, img, Flush(c), k)
    ensures k >= 5 ==> Window(Flush(c).chip.flash, fw.app, fw.vt) == Window(c.chip.flash, fw.app, fw.vt)
  {
    hide ProgramPage, Possible, Window, WindowIn, TornAt, PageAt, Safe;
    SafeFlush(fw, f, c);
    SafeInv(fw, f, c);
    if c.addr != fw.app {
      OtherPage(fw, c);
    } else if c.buf != PageAt(c.chip.flash, fw.app) {
      var p := ProgramPageTorn(c.chip, fw.app, c.buf);
      var x := PageAt(Flush(c).chip.flash, fw.app);
      WindowOfPage(fw, Flush(c).chip.flash);
      WindowOfPage(fw, c.chip.flash);
      if x != PageAt(c.chip.flash, fw.app) {
        TornWindow(x, c.buf, fw.vt, p);
        TornPossible(fw, f, img, WindowIn(x, fw.vt), WindowIn(c.buf, fw.vt), Within(p, fw.vt));
      }
    }
  }

  lemma SafeInv(fw: Firmware, f: Image, c: Cache)
    requires Safe(fw, f, c)
    ensures Inv(c) && fw.app <= c.addr
  {
  }

  lemma FaultClock(fw: Firmware, f: Image, img: Image, c: Cache, k: nat, ms: Word)
    requires Linked(fw) && CacheFault(fw, f, img, c, k)
    ensures CacheFault(fw, f, img, c.(ms := ms), k) && CacheFault(fw, f, img, c.(restarted := true), k)
  {
    hide Possible, Window, WindowIn;
  }

  lemma {:induction false} FaultTicks(fw: Firmware, f: Image, img: Image, c: Cache, k: nat, n: nat)
    requires Linked(fw) && CacheFault(fw, f, img, c, k)
    ensures Inv(c) && CacheFault(fw, f, img, Ticks(c, n), k)
    ensures k >= 5 ==> Window(Ticks(c, n).chip.flash, fw.app, fw.vt) == Window(c.chip.flash, fw.app, fw.vt)
  {
    hide CacheFault, FlushedChip, Window;
    CacheFaultInv(fw, f, img, c, k);
    if n > 0 {
      FaultTicks(fw, f, img, c, k, n - 1);
      var t := Ticks(c, n - 1);
      var u := t.(ms := Wrap(t.ms + 1));
      FaultClock(fw, f, img, t, k, u.ms);
      FaultFlush(fw, f, img, u, k);
      FaultClock(fw, f, img, Flush(u), k, u.ms);
    }
  }

  lemma CacheFaultInv(fw: Firmware, f: Image, img: Image, c: Cache, k: nat)
    requires Linked(fw) && CacheFault(fw, f, img, c, k)
    ensures Inv(c) && Safe(fw, f, c)
  {
  }

  /** A block write, taken apart: the page is loaded if it is not the cached one, and the block copied into it. */
  lemma BlockApart(c: Cache, dst: int, data: seq<Byte>)
    requires Inv(c) && |data| == HF2_PAGE_SIZE
    requires FLASH_BASE <= dst && dst + HF2_PAGE_SIZE < FLASH_END && dst % HF2_PAGE_SIZE == 0
    ensures dst % FLASH_PAGE_SIZE + HF2_PAGE_SIZE <= FLASH_PAGE_SIZE && PageInFlash(PageAddress(dst))
    ensures
      var page := PageAddress(dst);
      var t := if page != c.addr then Load(Flush(c), page) else c;
      WriteBlock(c, dst, data) == t.(buf := Overlay(t.buf, dst % FLASH_PAGE_SIZE, data))
  {
    hide FlushedChip, Overlay, WriteBlock, WriteLoop;
    assert data[..HF2_PAGE_SIZE] == data;
    BlockIsChunk(c, dst, data);
  }

  /** A block of the image copied into the page where tables are looked for holds the whole table or none of it. */
  lemma BlockInWindow(fw: Firmware, img: Image, buf: Page, k: nat)
    requires Linked(fw) && k < 4
    ensures
      var w := WindowIn(Overlay(buf, HF2_PAGE_SIZE * k, Block(img, k)), fw.vt);
      w == if fw.vt / HF2_PAGE_SIZE == k then Window(img, FLASH_BASE, fw.vt) else WindowIn(buf, fw.vt)
  {
    hide Block;
    BlockBytes(img, k);
    var w := WindowIn(Overlay(buf, HF2_PAGE_SIZE * k, Block(img, k)), fw.vt);
    var x := if fw.vt / HF2_PAGE_SIZE == k then Window(img, FLASH_BASE, fw.vt) else WindowIn(buf, fw.vt);
    var q, r := fw.vt / HF2_PAGE_SIZE, fw.vt % HF2_PAGE_SIZE;
    assert fw.vt == HF2_PAGE_SIZE * q + r;
    forall i | 0 <= i < TABLE_SIZE
      ensures w[i] == x[i]
    {
      var o := Overlay(buf, HF2_PAGE_SIZE * k, Block(img, k));
      assert w[i] == o[fw.vt + i];
      if q == k {
        assert o[fw.vt + i] == Block(img, k)[r + i];
      } else if q < k {
        assert fw.vt + i < HF2_PAGE_SIZE * (q + 1) <= HF2_PAGE_SIZE * k;
      } else {
        assert HF2_PAGE_SIZE * (k + 1) <= HF2_PAGE_SIZE * q <= fw.vt + i;
      }
    }
  }

  lemma BlockBytes(img: Image, k: nat)
    requires k < NEVER
    ensures forall i :: 0 <= i < HF2_PAGE_SIZE ==> Block(img, k)[i] == img[HF2_PAGE_SIZE * k + i]
  {
  }

  lemma StagedOffset(fw: Firmware, k: nat)
    requires Linked(fw) && k < NEVER
    ensures
      var dst := Staged(fw, PageNo(k));
      && fw.app <= PageAddress(dst) <= fw.app + HF2_PAGE_SIZE * k
      && (PageAddress(dst) == fw.app <==> k < 4)
      && (k < 4 ==> dst % FLASH_PAGE_SIZE == HF2_PAGE_SIZE * k && dst + HF2_PAGE_SIZE < FLASH_END)
  {
    var q, r := k / 4, k % 4;
    var a := fw.app / FLASH_PAGE_SIZE;
    assert fw.app + HF2_PAGE_SIZE * k == FLASH_PAGE_SIZE * (a + q) + HF2_PAGE_SIZE * r;
    PageOfSum(a + q, HF2_PAGE_SIZE * r);
  }

  lemma PageOfSum(q: int, r: int)
    requires 0 <= r < FLASH_PAGE_SIZE
    ensures PageAddress(FLASH_PAGE_SIZE * q + r) == FLASH_PAGE_SIZE * q
      && (FLASH_PAGE_SIZE * q + r) % FLASH_PAGE_SIZE == r
  {
  }

  /** Staging the next block, whatever the write-back of the page before comes to. */
  lemma FaultWrite(fw: Firmware, f: Image, img: Image, c: Cache, k: nat)
    requires Linked(fw) && k < NEVER && CacheFault(fw, f, img, c, k)
    ensures Inv(c)
    ensures
      var r := WriteBlock(c, Staged(fw, PageNo(k)), Block(img, k));
      && CacheFault(fw, f, img, r, k + 1)
      && (k >= 5 ==> Window(r.chip.flash, fw.app, fw.vt) == Window(c.chip.flash, fw.app, fw.vt))
  {
    hide Possible, Window, WindowIn, Overlay, PageAddress, Safe, WriteBlock, FlushedChip;
    CacheFaultInv(fw, f, img, c, k);
    SafeInv(fw, f, c);
    var dst := Staged(fw, PageNo(k));
    StagedOffset(fw, k);
    if dst + HF2_PAGE_SIZE < FLASH_END {
      SafeBlock(fw, f, c, dst, Block(img, k));
      BlockApart(c, dst, Block(img, k));
      FaultFlush(fw, f, img, c, k);
      var page := PageAddress(dst);
      var t := if page != c.addr then Load(Flush(c), page) else c;
      if k < 4 {
        WindowOfPage(fw, t.chip.flash);
        BlockInWindow(fw, img, t.buf, k);
        ImagePossible(fw, f, img);
      }
    } else {
      BlockDropped(c, dst, Block(img, k));
    }
  }

  lemma ImagePossible(fw: Firmware, f: Image, img: Image)
    requires Linked(fw)
    ensures Possible(fw, f, img, Window(img, FLASH_BASE, fw.vt)) && Possible(fw, f, img, Window(f, fw.app, fw.vt))
  {
    hide Window;
    TornWhole(Window(img, FLASH_BASE, fw.vt));
    TornWhole(Window(f, fw.app, fw.vt));
  }

  // ---------- sessions ----------

  /** The running bootloader's own table is in place and names its application start. */
  predicate OwnTable(fw: Firmware, f: Image)
    requires Linked(fw)
  {
    ValidTable(TableIn(Window(f, FLASH_BASE, fw.vt))) && RunningTable(fw, f)
  }

  /** What the session knows after `k` > 0 pages, at page `n` = `k`: past the sixth, a table not found by then is not
      there. */
  predicate KnownFault(fw: Firmware, img: Image, s: Session, k: nat)
    requires Linked(fw)
  {
    && !s.changed
    && (s.found ==> s.newApp == ImageApp(fw, img) && s.newBootSize == Wrap(s.newApp - FLASH_BASE) &&
                    ValidTable(ImageTable(fw, img)) && FLASH_BASE + HF2_PAGE_SIZE * k <= ImageApp(fw, img))
    && (!s.found ==> s.newApp == fw.app && (k >= 6 ==> NoStaleTable(fw, s.cache.chip.flash)))
  }

  ghost predicate FaultStaging(fw: Firmware, f: Image, img: Image, s: Session, k: nat)
    requires Linked(fw)
  {
    Ok(s) && CacheFault(fw, f, img, s.cache, k) && (k > 0 ==> KnownFault(fw, img, s, k))
  }

  lemma FaultRecognise(fw: Firmware, f: Image, img: Image, s: Session, k: nat)
    requires Linked(fw) && k < NEVER && FaultStaging(fw, f, img, s, k) && NoStaleTable(fw, f) && TwoPages(fw, img)
    ensures
      var r := Recognise(fw, s, PageNo(k));
      && !r.changed && r.cache == s.cache
      && (r.found ==> r.newApp == ImageApp(fw, img) && r.newBootSize == Wrap(r.newApp - FLASH_BASE) &&
                      ValidTable(ImageTable(fw, img)) && PageNo(k) <= r.newApp)
      && (!r.found ==> r.newApp == fw.app && NoStaleTable(fw, s.cache.chip.flash))
  {
    hide Possible, Window, TableIn, PageAddress, Safe;
    PageAligned(fw.app);
    if !NoStaleTable(fw, s.cache.chip.flash) {
      PossibleValid(fw, f, img, Window(s.cache.chip.flash, fw.app, fw.vt));
    }
  }

  lemma FaultStagingTicks(fw: Firmware, f: Image, img: Image, s: Session, k: nat, n: nat)
    requires Linked(fw) && FaultStaging(fw, f, img, s, k)
    ensures FaultStaging(fw, f, img, s.(cache := Ticks(s.cache, n)), k)
  {
    hide CacheFault, Ticks, Window, TableIn, PageAddress;
    FaultTicks(fw, f, img, s.cache, k, n);
  }

  lemma FaultStages(fw: Firmware, f: Image, img: Image, s: Session, k: nat)
    requires Linked(fw) && k < NEVER && FaultStaging(fw, f, img, s, k) && NoStaleTable(fw, f) && TwoPages(fw, img)
    requires PageNo(k) < Recognise(fw, s, PageNo(k)).newApp && HF2_PAGE_SIZE * k < AppOffset(fw)
    ensures FaultStaging(fw, f, img, HandleFlashWrite(fw, s, PageNo(k), Block(img, k)), k + 1)
  {
    hide CacheFault, Recognise, Window, TableIn, WriteBlock, TwoPages;
    FaultRecognise(fw, f, img, s, k);
    FaultWrite(fw, f, img, s.cache, k);
    PageAligned(ImageTable(fw, img).application);
    if Recognise(fw, s, PageNo(k)).found {
      NextPageStart(ImageApp(fw, img), k);
    }
  }

  /** A page below an application start is a whole page below it. */
  lemma NextPageStart(app: int, k: nat)
    requires app % FLASH_PAGE_SIZE == 0 && FLASH_BASE + HF2_PAGE_SIZE * k < app
    ensures FLASH_BASE + HF2_PAGE_SIZE * (k + 1) <= app
  {
    var q := app / FLASH_PAGE_SIZE;
    assert app == HF2_PAGE_SIZE * (4 * q);
  }

  /** If the comparison at the first application page finds no difference, flash holds the running
      bootloader's own table where the staged one should be; then the image's table is that one, and names
      the old application start. */
  lemma FaultCompares(fw: Firmware, f: Image, img: Image, c: Cache, k: nat, size: int)
    requires Linked(fw) && CacheFault(fw, f, img, c, k) && NoStaleTable(fw, f) && OwnTable(fw, f)
      && FLASH_PAGE_SIZE <= size
    requires !Differs(c.chip.flash, fw.app, size)
    ensures ImageApp(fw, img) == fw.app
  {
    hide Possible, TableIn, PageAddress;
    var g := c.chip.flash;
    var w, own := Window(g, fw.app, fw.vt), Window(f, FLASH_BASE, fw.vt);
    forall i | 0 <= i < TABLE_SIZE
      ensures w[i] == own[i]
    {
      var a := FLASH_BASE + fw.vt + i;
      assert FlashByte(g, a) == g[fw.vt + i] == f[fw.vt + i] == own[i];
      assert FlashByte(g, a + (fw.app - FLASH_BASE)) == g[AppOffset(fw) + fw.vt + i] == w[i];
    }
    assert w == own;
    PossibleValid(fw, f, img, w);
  }

  lemma FaultHalts(fw: Firmware, f: Image, img: Image, s: Session, k: nat)
    requires Linked(fw) && k < NEVER && FaultStaging(fw, f, img, s, k) && NoStaleTable(fw, f) && TwoPages(fw, img)
    requires OwnTable(fw, f) && PageNo(k) == ImageApp(fw, img) < fw.app
    requires var r := Recognise(fw, s, PageNo(k)); r.found && r.newApp == PageNo(k)
    ensures
      var r := HandleFlashWrite(fw, s, PageNo(k), Block(img, k));
      Halted(r) && Safe(fw, f, r.cache)
  {
    hide CacheFault, Recognise, Window, TableIn, WriteBlock, TwoPages, Safe, Differs, FlushedChip, FlashWrite, OwnTable,
         PageAddress, NoStaleTable, ImageTable;
    FaultRecognise(fw, f, img, s, k);
    var r := Recognise(fw, s, PageNo(k));
    var c := Flush(s.cache);
    FaultFlush(fw, f, img, s.cache, k);
    CacheFaultInv(fw, f, img, c, k);
    PageAligned(ImageTable(fw, img).application);
    BigEnough(fw, img, k);
    if !Differs(c.chip.flash, fw.app, HF2_PAGE_SIZE * k) {
      FaultCompares(fw, f, img, c, k, HF2_PAGE_SIZE * k);
    }
    SafeUpdate(fw, f, c, r.newBootSize, r.newBaseSize, PageNo(k));
  }

  lemma BigEnough(fw: Firmware, img: Image, k: nat)
    requires Linked(fw) && TwoPages(fw, img) && k < NEVER && PageNo(k) == ImageApp(fw, img) < fw.app
    requires ValidTable(ImageTable(fw, img))
    ensures FLASH_PAGE_SIZE <= HF2_PAGE_SIZE * k == Wrap(PageNo(k) - FLASH_BASE)
  {
  }

  /** A session below the old application start, on any hardware: staging, or halted by a changed bootloader. */
  ghost predicate FaultPhase(fw: Firmware, f: Image, img: Image, s: Session, n: nat)
    requires Linked(fw)
  {
    && Ok(s) && Safe(fw, f, s.cache)
    && (HF2_PAGE_SIZE * n < AppOffset(fw) ==> FaultStaging(fw, f, img, s, n) || (n > 0 && Halted(s)))
  }

  lemma FaultPhaseStep(fw: Firmware, f: Image, img: Image, s: Session, k: nat, n: nat)
    requires Linked(fw) && k < NEVER && FaultPhase(fw, f, img, s, k)
    requires NoStaleTable(fw, f) && OwnTable(fw, f) && TwoPages(fw, img)
    ensures FaultPhase(fw, f, img, HandleFlashWrite(fw, s.(cache := Ticks(s.cache, n)), PageNo(k), Block(img, k)),
      k + 1)
  {
    hide FaultStaging, Ticks, Safe, NoStaleTable, OwnTable, HandleFlashWrite, ImageTable, Block, Recognise;
    var t := s.(cache := Ticks(s.cache, n));
    SafeTicks(fw, f, s.cache, n);
    if fw.app <= PageNo(k) {
      SafePacket(fw, f, t, PageNo(k), Block(img, k));
    } else if FaultStaging(fw, f, img, s, k) {
      FaultStagingTicks(fw, f, img, s, k, n);
      FaultRecognise(fw, f, img, t, k);
      if PageNo(k) < Recognise(fw, t, PageNo(k)).newApp {
        FaultStages(fw, f, img, t, k);
        FaultStagingSafe(fw, f, img, HandleFlashWrite(fw, t, PageNo(k), Block(img, k)), k + 1);
      } else {
        FaultHalts(fw, f, img, t, k);
      }
    } else {
      NothingAfterChange(fw, t, PageNo(k), Block(img, k));
    }
  }

  lemma FaultStagingSafe(fw: Firmware, f: Image, img: Image, s: Session, k: nat)
    requires Linked(fw) && FaultStaging(fw, f, img, s, k)
    ensures Ok(s) && Safe(fw, f, s.cache)
  {
    CacheFaultInv(fw, f, img, s.cache, k);
  }

  /** A device with nothing cached and its own table in place, on any hardware. */
  predicate Started(fw: Firmware, s: Session)
    requires Linked(fw)
  {
    Ok(s) && s.cache.addr == NO_CACHE && OwnTable(fw, s.cache.chip.flash)
  }

  lemma {:induction false} FaultSession(fw: Firmware, s: Session, img: Image, ticks: seq<nat>, n: nat)
    requires Linked(fw) && Started(fw, s) && NoStaleTable(fw, s.cache.chip.flash) && TwoPages(fw, img)
    requires n <= |ticks| && n <= NEVER
    ensures FaultPhase(fw, s.cache.chip.flash, img, Feed(fw, s, img, ticks, n), n)
  {
    hide FaultPhase, NoStaleTable, OwnTable, TwoPages, HandleFlashWrite;
    if n == 0 {
      FaultStart(fw, s, img);
    } else {
      FaultSession(fw, s, img, ticks, n - 1);
      FaultPhaseStep(fw, s.cache.chip.flash, img, Feed(fw, s, img, ticks, n - 1), n - 1, ticks[n - 1]);
    }
  }

  lemma FaultStart(fw: Firmware, s: Session, img: Image)
    requires Linked(fw) && Started(fw, s)
    ensures FaultPhase(fw, s.cache.chip.flash, img, s, 0)
  {
    hide Possible;
    ImagePossible(fw, s.cache.chip.flash, img);
  }

  // ---------- over a table that names the old application start or more ----------

  predicate FoundAbove(fw: Firmware, f: Image, s: Session)
    requires Linked(fw)
  {
    s.found && s.newApp == StaleApp(fw, f)
  }

  lemma {:induction false} StaleAboveSession(fw: Firmware, s: Session, img: Image, ticks: seq<nat>, n: nat)
    requires Linked(fw) && Started(fw, s) && !NoStaleTable(fw, s.cache.chip.flash)
    requires StaleApp(fw, s.cache.chip.flash) >= fw.app && n <= |ticks| && n <= NEVER
    ensures
      var r := Feed(fw, s, img, ticks, n);
      && Safe(fw, s.cache.chip.flash, r.cache)
      && (if n > 0 then FoundAbove(fw, s.cache.chip.flash, r) else r == s)
  {
    hide NoStaleTable, OwnTable, HandleFlashWrite, StaleApp, Safe, Ticks;
    var f := s.cache.chip.flash;
    if n == 0 {
      UncachedSafe(fw, s.cache);
    } else {
      StaleAboveSession(fw, s, img, ticks, n - 1);
      var p := Feed(fw, s, img, ticks, n - 1);
      SafeTicks(fw, f, p.cache, ticks[n - 1]);
      if n == 1 {
        TicksUncached(s.cache, ticks[0]);
      }
      StaleAbovePacket(fw, f, img, p.(cache := Ticks(p.cache, ticks[n - 1])), n - 1);
    }
  }

  lemma UncachedSafe(fw: Firmware, c: Cache)
    requires Linked(fw) && Inv(c) && c.addr == NO_CACHE
    ensures Safe(fw, c.chip.flash, c)
  {
  }

  lemma StaleAbovePacket(fw: Firmware, f: Image, img: Image, s: Session, k: nat)
    requires Linked(fw) && k < NEVER && Ok(s) && Safe(fw, f, s.cache) && !NoStaleTable(fw, f)
      && StaleApp(fw, f) >= fw.app
    requires if k == 0 then s.cache.chip.flash == f else FoundAbove(fw, f, s)
    ensures
      var r := HandleFlashWrite(fw, s, PageNo(k), Block(img, k));
      Safe(fw, f, r.cache) && FoundAbove(fw, f, r)
  {
    hide Window, TableIn, PageAddress, Safe, WriteBlock, BootloaderUpdate;
    if PageNo(k) < fw.app {
      SafeBlock(fw, f, s.cache, Staged(fw, PageNo(k)), Block(img, k));
    } else {
      SafePacket(fw, f, s, PageNo(k), Block(img, k));
    }
  }

  /** Safety of whole sessions on any hardware: however long the image, whatever the timer does in between, and
      whichever erases and programs time out, neither flash nor the cache ever differs from the old contents below the
      old application start. The image's table names a bootloader of two pages or more if there is no table at the old
      application start yet; the table that is there, if any, names that start or more. */
  lemma SessionSafe(fw: Firmware, s: Session, img: Image, ticks: seq<nat>, n: nat)
    requires Linked(fw) && Started(fw, s) && n <= |ticks| && n <= NEVER
    requires if NoStaleTable(fw, s.cache.chip.flash) then TwoPages(fw, img)
      else StaleApp(fw, s.cache.chip.flash) >= fw.app
    ensures
      var c := Feed(fw, s, img, ticks, n).cache;
      SameBelow(c.chip.flash, s.cache.chip.flash, fw.app) && SameBelow(View(c), s.cache.chip.flash, fw.app)
  {
    hide Feed, NoStaleTable, TwoPages, StaleApp, OwnTable, View, SameBelow, FaultStaging;
    var f, r := s.cache.chip.flash, Feed(fw, s, img, ticks, n);
    if NoStaleTable(fw, f) {
      FaultSession(fw, s, img, ticks, n);
    } else {
      StaleAboveSession(fw, s, img, ticks, n);
    }
    SafeView(fw, f, r.cache);
  }
}
