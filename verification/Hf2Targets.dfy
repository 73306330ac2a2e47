// hf2.c: what handle_flash_write does with any 32-bit target address the host may send.

module Hf2Targets {
  import opened Platform
  import opened FlashHardware
  import opened PageCache
  import opened Hf2Flashing
  import opened Hf2Safety

  /** What VALID_FLASH_ADDR and flash_write let through, whatever target the host sent, lies in flash and in the page
      buffer exactly if the end of its destination does not wrap and it does not straddle two flash pages. */
  lemma AcceptedTargetIff(fw: Firmware, newApp: Word, target: Word, data: seq<Byte>)
    requires Linked(fw) && |data| == HF2_PAGE_SIZE
    requires
      var a := Destination(fw, newApp, target);
      ValidFlashAddr(a) && ValidWrite(a, Packet(data), HF2_PAGE_SIZE)
    ensures
      var a := Destination(fw, newApp, target);
      InFlash(a) && a + HF2_PAGE_SIZE <= FLASH_END && ChunksFit(a, HF2_PAGE_SIZE)
      <==> a + HF2_PAGE_SIZE < 0x1_0000_0000 && a % FLASH_PAGE_SIZE + HF2_PAGE_SIZE <= FLASH_PAGE_SIZE
  {
    var a := Destination(fw, newApp, target);
    ChunksFitIff(a, HF2_PAGE_SIZE);
    if a + HF2_PAGE_SIZE < 0x1_0000_0000 {
      assert Wrap(a + HF2_PAGE_SIZE) == a + HF2_PAGE_SIZE;
    }
  }

  /** Addresses the checks let through although they are outside flash, or overrun the page buffer. The last block of
      flash passes the address check, but not that of flash_write. */
  lemma StrayTargetsAccepted(data: seq<Byte>)
    requires |data| == HF2_PAGE_SIZE
    ensures forall a :: 0xFFFF_FF00 <= a < 0x1_0000_0000 ==>
      ValidFlashAddr(a) && ValidWrite(a, Packet(data), HF2_PAGE_SIZE) && !PageInFlash(PageAddress(a))
    ensures ValidFlashAddr(FLASH_BASE + 1000) && ValidWrite(FLASH_BASE + 1000, Packet(data), HF2_PAGE_SIZE)
    ensures !ChunksFit(FLASH_BASE + 1000, HF2_PAGE_SIZE)
    ensures ValidFlashAddr(FLASH_END - 256) && !ValidWrite(FLASH_END - 256, Packet(data), HF2_PAGE_SIZE)
  {
    forall a | 0xFFFF_FF00 <= a < 0x1_0000_0000
      ensures ValidFlashAddr(a) && ValidWrite(a, Packet(data), HF2_PAGE_SIZE) && !PageInFlash(PageAddress(a))
    {
      assert Wrap(a + HF2_PAGE_SIZE) == a + HF2_PAGE_SIZE - 0x1_0000_0000;
    }
  }

  // ---------- which packets reach the running bootloader ----------

  /** The packet is the first application page and the bootloader staged so far is not the running one: instead of the
      block, the copier is written. */
  predicate Updates(fw: Firmware, s: Session, target: Word)
    requires Linked(fw) && Ok(s)
  {
    var s1 := Recognise(fw, s, target);
    !s1.changed && s1.found && target == s1.newApp && Differs(View(s.cache), fw.app, s1.newBootSize)
  }

  /** The block lands in the running bootloader: the target lies there and is not shifted, or lies as far below the
      flash base as the shift is long. */
  predicate Reaches(fw: Firmware, s: Session, target: Word)
    requires Linked(fw) && Ok(s)
  {
    var s1 := Recognise(fw, s, target);
    && !s1.changed && !Updates(fw, s, target)
    && if target < s1.newApp then FLASH_BASE - AppOffset(fw) <= target < FLASH_BASE
       else FLASH_BASE <= target < fw.app
  }

  /** Flash once the packet has been handled and written back. */
  function Written(fw: Firmware, s: Session, target: Word, data: seq<Byte>): Image
    requires Linked(fw) && Ok(s) && |data| == HF2_PAGE_SIZE && Handled(fw, s, target)
  {
    Flush(HandleFlashWrite(fw, s, target, data).cache).chip.flash
  }

  /** A block write of any accepted address, seen through the cache; the strict bound may still drop it. */
  lemma BlockEffect(c: Cache, dst: Word, data: seq<Byte>)
    requires Inv(c) && Healthy(c.chip) && |data| == HF2_PAGE_SIZE && BlockFits(dst)
    ensures
      var r := WriteBlock(c, dst, data);
      && Healthy(r.chip)
      && View(r) == if FLASH_BASE <= dst && dst + HF2_PAGE_SIZE < FLASH_END
                    then Overlay(View(c), dst - FLASH_BASE, data) else View(c)
  {
    hide View, Overlay, FlashWrite;
    if FLASH_BASE <= dst {
      if dst + HF2_PAGE_SIZE < FLASH_END {
        BlockWritten(c, dst, data);
      } else {
        BlockDropped(c, dst, data);
      }
    }
  }

  /** Where the shift takes a target, as far as the address check lets it through. */
  lemma ShiftedPlace(fw: Firmware, newApp: Word, target: Word)
    requires Linked(fw) && 0 <= target < newApp
    ensures
      var a := Destination(fw, newApp, target);
      FLASH_BASE <= a < fw.app <==> FLASH_BASE - AppOffset(fw) <= target < FLASH_BASE
  {
    var x := target + (fw.app - FLASH_BASE);
    assert Wrap(x) == if x >= 0x1_0000_0000 then x - 0x1_0000_0000 else x;
  }

  /** The cache after a packet that does not start an update. */
  lemma PacketCache(fw: Firmware, s: Session, target: Word, data: seq<Byte>)
    requires Linked(fw) && Ok(s) && |data| == HF2_PAGE_SIZE && Handled(fw, s, target) && Healthy(s.cache.chip)
    requires !Updates(fw, s, target) && !Recognise(fw, s, target).changed
    ensures
      var s1 := Recognise(fw, s, target);
      var a := Destination(fw, s1.newApp, target);
      var c := HandleFlashWrite(fw, s, target, data).cache;
      BlockFits(a) && (c == WriteBlock(s.cache, a, data) || c == WriteBlock(Flush(s.cache), a, data))
  {
    hide View, WriteBlock, Recognise, Differs, FlushedChip;
    FlushKeepsView(s.cache);
  }

  /** On fault-free hardware a packet that does not start an update writes its block at its destination, or
      nothing. */
  lemma PacketEffect(fw: Firmware, s: Session, target: Word, data: seq<Byte>)
    requires Linked(fw) && Ok(s) && |data| == HF2_PAGE_SIZE && Handled(fw, s, target) && Healthy(s.cache.chip)
    requires !Updates(fw, s, target)
    ensures
      var s1 := Recognise(fw, s, target);
      var a := Destination(fw, s1.newApp, target);
      Written(fw, s, target, data) ==
        if !s1.changed && FLASH_BASE <= a && a + HF2_PAGE_SIZE < FLASH_END
        then Overlay(View(s.cache), a - FLASH_BASE, data) else View(s.cache)
  {
    hide View, Overlay, WriteBlock, Recognise, Differs, FlushedChip, Updates, HandleFlashWrite, Handled;
    var s1 := Recognise(fw, s, target);
    FlushKeepsView(s.cache);
    if s1.changed {
      ChangedPacketIgnored(fw, s, target, data);
    } else {
      PacketCache(fw, s, target, data);
      var a := Destination(fw, s1.newApp, target);
      BlockEffect(s.cache, a, data);
      BlockEffect(Flush(s.cache), a, data);
      FlushKeepsView(HandleFlashWrite(fw, s, target, data).cache);
    }
  }

  lemma ChangedPacketIgnored(fw: Firmware, s: Session, target: Word, data: seq<Byte>)
    requires Linked(fw) && Ok(s) && |data| == HF2_PAGE_SIZE && Handled(fw, s, target)
    requires Recognise(fw, s, target).changed
    ensures HandleFlashWrite(fw, s, target, data).cache == s.cache
  {
    hide WriteBlock, BootloaderUpdate;
  }

  /** The packet that starts an update leaves the running bootloader alone. */
  lemma UpdateEffect(fw: Firmware, s: Session, target: Word, data: seq<Byte>)
    requires Linked(fw) && Ok(s) && |data| == HF2_PAGE_SIZE && Handled(fw, s, target) && Healthy(s.cache.chip)
    requires Updates(fw, s, target)
    ensures SameBelow(Written(fw, s, target, data), View(s.cache), fw.app)
  {
    hide View, WriteBlock, Recognise, Differs, FlushedChip, SameBelow, FlashWrite;
    var s1 := Recognise(fw, s, target);
    var f := View(s.cache);
    FlushKeepsView(s.cache);
    SameBelowSelf(f, fw.app);
    SafeUpdate(fw, f, Flush(s.cache), s1.newBootSize, s1.newBaseSize, target);
    SafeFlush(fw, f, HandleFlashWrite(fw, s, target, data).cache);
  }

  lemma SameBelowSelf(f: Image, a: int)
    ensures SameBelow(f, f, a)
  {
  }

  lemma OverlayBelow(f: Image, at: nat, data: seq<Byte>, a: int)
    requires at + |data| <= FLASH_SIZE && at < a - FLASH_BASE && 0 < |data| && data[0] != f[at]
    ensures !SameBelow(Overlay(f, at, data), f, a)
  {
    assert Overlay(f, at, data)[at] == data[0];
  }

  /** A block whose first byte is not `b`. */
  function OtherBlock(b: Byte): (data: seq<Byte>)
    ensures |data| == HF2_PAGE_SIZE && data[0] != b
  {
    seq(HF2_PAGE_SIZE, _ => if b == 0 then 1 else 0)
  }

  lemma KeptUnlessReached(fw: Firmware, s: Session, target: Word, data: seq<Byte>)
    requires Linked(fw) && Ok(s) && |data| == HF2_PAGE_SIZE && Handled(fw, s, target) && Healthy(s.cache.chip)
    requires !Reaches(fw, s, target)
    ensures SameBelow(Written(fw, s, target, data), View(s.cache), fw.app)
  {
    hide View, Overlay, Recognise, SameBelow, Updates, Handled, Written;
    var s1 := Recognise(fw, s, target);
    var f := View(s.cache);
    SameBelowSelf(f, fw.app);
    if Updates(fw, s, target) {
      UpdateEffect(fw, s, target, data);
    } else {
      PacketEffect(fw, s, target, data);
      var a := Destination(fw, s1.newApp, target);
      if target < s1.newApp {
        ShiftedPlace(fw, s1.newApp, target);
      }
      if !s1.changed && FLASH_BASE <= a && a + HF2_PAGE_SIZE < FLASH_END {
        OverlayAbove(f, f, a - FLASH_BASE, data, fw.app);
      }
    }
  }

  /** Exactly which packets can overwrite the running bootloader, whatever state the session is in: a block for the
      bootloader itself once its part is over, and, while it is not, a block for an address as far below flash as the
      shift is long. */
  lemma ReachesIff(fw: Firmware, s: Session, target: Word)
    requires Linked(fw) && Ok(s) && Handled(fw, s, target) && Healthy(s.cache.chip)
    ensures (exists data: seq<Byte> ::
               |data| == HF2_PAGE_SIZE && !SameBelow(Written(fw, s, target, data), View(s.cache), fw.app))
       <==> Reaches(fw, s, target)
  {
    hide View, Overlay, Recognise, SameBelow, Updates, Handled, Written;
    if Reaches(fw, s, target) {
      var s1 := Recognise(fw, s, target);
      var a := Destination(fw, s1.newApp, target);
      if target < s1.newApp {
        ShiftedPlace(fw, s1.newApp, target);
      }
      var data := OtherBlock(View(s.cache)[a - FLASH_BASE]);
      PacketEffect(fw, s, target, data);
      OverlayBelow(View(s.cache), a - FLASH_BASE, data, fw.app);
      assert |data| == HF2_PAGE_SIZE && !SameBelow(Written(fw, s, target, data), View(s.cache), fw.app);
    } else {
      forall data: seq<Byte> | |data| == HF2_PAGE_SIZE
        ensures SameBelow(Written(fw, s, target, data), View(s.cache), fw.app)
      {
        KeptUnlessReached(fw, s, target, data);
      }
    }
  }

  lemma ShiftedFits(fw: Firmware, newApp: Word, target: Word)
    requires Linked(fw) && FLASH_BASE - AppOffset(fw) <= target < FLASH_BASE <= newApp && target % HF2_PAGE_SIZE == 0
    ensures BlockFits(Destination(fw, newApp, target))
  {
    AppAligned(fw);
    MultipleSum(target, fw.app - FLASH_BASE);
    OneBlock(target + (fw.app - FLASH_BASE));
  }

  /** One packet is enough, even the first of a session: each page-aligned target in the stretch below flash that
      the shift brings onto the bootloader passes every check. */
  lemma FirstPacketOverwrites(fw: Firmware, s: Session, target: Word)
    requires Linked(fw) && Ok(s) && Healthy(s.cache.chip) && s.newApp == 0 && NoStaleTable(fw, s.cache.chip.flash)
    requires FLASH_BASE - AppOffset(fw) <= target < FLASH_BASE && target % HF2_PAGE_SIZE == 0
    ensures Handled(fw, s, target) && !ValidFlashAddr(target)
    ensures exists data: seq<Byte> ::
      |data| == HF2_PAGE_SIZE && !SameBelow(Written(fw, s, target, data), View(s.cache), fw.app)
  {
    hide View, SameBelow, Written, TableIn, Window, BlockFits, Destination, PageAddress;
    AppAligned(fw);
    ShiftedFits(fw, fw.app, target);
    ReachesIff(fw, s, target);
  }

  lemma AppAligned(fw: Firmware)
    requires Linked(fw)
    ensures (fw.app - FLASH_BASE) % HF2_PAGE_SIZE == 0 && PageAddress(fw.app) == fw.app
  {
  }
}
