// baseloader.c: the relocatable copier that replaces the bootloader in place.

module Baseloader {
  import opened Platform
  import opened FlashHardware

  /** base_para: the parameters of one call. The half-word pointers made from `dest` and `src` must be aligned. */
  datatype Para = Para(dest: Word, src: Word, byteCount: Word, restart: bool, preview: bool)

  predicate Aligned(p: Para) {
    p.dest % 2 == 0 && p.src % 2 == 0
  }

  /** How the copy loop ended. */
  datatype LoopExit = Copied | Unverified | TimedOut(code: int)

  /** Chip afterwards, base_para.result, and whether the call ended in a device reset instead of returning. */
  datatype Outcome = Outcome(chip: Chip, result: int, reset: bool)

  /** The checks made before anything is flashed: 0, or the error code. */
  function Validate(p: Para): int {
    if p.dest < 0x0800_0000 then -2
    else if Wrap(p.dest + p.byteCount) > 0x0801_0000 then -3
    else if 0x0800_0000 <= p.src < 0x0801_0000 then
      if Wrap(p.src + p.byteCount) > 0x0801_0000 then -4 else 0
    else if 0x2000_0000 <= p.src < 0x2000_5000 then
      if Wrap(p.src + p.byteCount) > 0x2000_5000 then -5 else 0
    else -6
  }

  /** The half-word a load from `a` yields. */
  function PeekHalfWord(flash: Image, ram: Ram, a: int): HalfWord {
    HalfWord(Peek(flash, ram, a), Peek(flash, ram, a + 1))
  }

  /** The second half of an iteration: program the half-word, compare it with its source. */
  function ProgramStep(c: Chip, ram: Ram, d: int, s: int): (r: (Chip, LoopExit))
    requires CellInFlash(d)
  {
    var (c', e) := ProgramHalfWord(c, d, PeekHalfWord(c.flash, ram, s));
    if e < 0 then (c', TimedOut(e))
    else (c', if HalfWordAt(c'.flash, d) != PeekHalfWord(c'.flash, ram, s) then Unverified else Copied)
  }

  /** One iteration of the real run: erase the page if due, program the half-word, compare it with its source. */
  function Iteration(c: Chip, ram: Ram, d: int, s: int, due: bool): (r: (Chip, LoopExit))
    requires CellInFlash(d)
  {
    var (c1, e1) := if due then ErasePage(c, PageAddress(d)) else (c, 0);
    if e1 < 0 then (c1, TimedOut(e1)) else ProgramStep(c1, ram, d, s)
  }

  /** The copy loop: `n` half-words still to go from `s` to `d`, with [es, ee) the erased part of the current page. */
  function CopyLoop(preview: bool, c: Chip, ram: Ram, d: int, s: int, n: nat, es: int, ee: int): (r: (Chip, LoopExit))
    requires FLASH_BASE <= d && d % 2 == 0
    decreases n
  {
    if n == 0 then (c, Copied)
    else if d >= FLASH_END then (c, Unverified)
    else
      var due := d >= ee || d < es;
      var ee' := if due then PageAddress(d) + FLASH_PAGE_SIZE else ee;
      var (c', exit) := if preview then (c, Copied) else Iteration(c, ram, d, s, due);
      if exit != Copied then (c', exit)
      else CopyLoop(preview, c', ram, d + 2, s + 2, n - 1, d + 2, ee')
  }

  /** baseloader_start. */
  function Start(p: Para, c: Chip, ram: Ram): Outcome
    requires Aligned(p)
  {
    if Validate(p) < 0 then Outcome(c, Validate(p), false)
    else
      var n := p.byteCount / 2;
      var (c', exit) := CopyLoop(p.preview, c, ram, p.dest, p.src, n, 0, 0);
      match exit
      case TimedOut(code) => Outcome(c', code, false)
      case Copied => Outcome(c', 2 * n, !p.preview && p.restart)
      case Unverified => Outcome(c', -1, !p.preview && p.restart)
  }

  // ---------- what a run may touch ----------

  /** First address of the flash page at or above `a`. */
  function PageCeiling(a: int): int {
    PageAddress(a + FLASH_PAGE_SIZE - 1)
  }

  /** The loop's bookkeeping: either a page is due to be erased, or [d, ee) is the erased rest of d's page. */
  predicate Primed(flash: Image, d: int, es: int, ee: int) {
    d >= ee || d < es ||
    (es == d && ee == PageAddress(d) + FLASH_PAGE_SIZE && PageInFlash(PageAddress(d)) && d % FLASH_PAGE_SIZE != 0 &&
     forall i :: d - FLASH_BASE <= i < ee - FLASH_BASE ==> flash[i] == ERASED)
  }

  /** Lowest address an iteration at `d` may change. */
  function Floor(d: int, due: bool): int {
    if due then PageAddress(d) else d
  }

  /** Erase-before-program discipline of a list of operations confined to [lo, hi): blank cells only,
      no cell programmed twice, no page erased twice. */
  predicate Disciplined(ops: seq<FlashOp>, lo: int, hi: int) {
    && (forall k :: 0 <= k < |ops| && ops[k].Program? ==> ops[k].blank && lo <= ops[k].at && ops[k].at + 2 <= hi)
    && (forall k :: 0 <= k < |ops| && ops[k].Erase? ==> lo <= ops[k].page && ops[k].page + FLASH_PAGE_SIZE <= hi)
    && (forall j, k :: 0 <= j < k < |ops| && ops[j].Program? && ops[k].Program? ==> ops[j].at < ops[k].at)
    && (forall j, k :: 0 <= j < k < |ops| && ops[j].Erase? && ops[k].Erase? ==> ops[j].page < ops[k].page)
  }

  predicate SameOutside(f: Image, g: Image, lo: int, hi: int) {
    forall i :: 0 <= i < FLASH_SIZE && !(lo <= i + FLASH_BASE < hi) ==> f[i] == g[i]
  }

  /** Flash after the erase of an iteration at `d`, if one is due. */
  function AfterErase(flash: Image, d: int, due: bool): Image
    requires CellInFlash(d) && PageInFlash(PageAddress(d))
  {
    if due then ErasedImage(flash, PageAddress(d)) else flash
  }

  /** Flash after a whole iteration without timeout. */
  function AfterIteration(flash: Image, ram: Ram, d: int, s: int, due: bool): Image
    requires CellInFlash(d) && PageInFlash(PageAddress(d))
  {
    var erased := AfterErase(flash, d, due);
    ProgrammedImage(erased, d, PeekHalfWord(erased, ram, s))
  }

  /** What an iteration logs. */
  function OpsOf(flash: Image, ram: Ram, d: int, s: int, due: bool): seq<FlashOp>
    requires CellInFlash(d) && PageInFlash(PageAddress(d))
  {
    var erased := AfterErase(flash, d, due);
    (if due then [Erase(PageAddress(d))] else []) + [Program(d, PeekHalfWord(erased, ram, s), Blank(erased, d))]
  }

  /** Programming a blank cell with what an aligned source holds leaves that source, even at the cell itself, as it
      was. */
  lemma ProgramKeepsSource(flash: Image, ram: Ram, d: int, s: int)
    requires CellInFlash(d) && s % 2 == 0 && Blank(flash, d)
    ensures
      var v := PeekHalfWord(flash, ram, s);
      var g := ProgrammedImage(flash, d, v);
      HalfWordAt(g, d) == v && PeekHalfWord(g, ram, s) == v && SameOutside(flash, g, d, d + 2)
  {
  }

  /** The page due for erasing, once erased, is the primed rest of the page. */
  lemma ErasePrimes(flash: Image, d: int, es: int, ee: int)
    requires CellInFlash(d) && Primed(flash, d, es, ee)
    ensures PageInFlash(PageAddress(d))
    ensures
      var due := d >= ee || d < es;
      var hi := PageAddress(d) + FLASH_PAGE_SIZE;
      var g := AfterErase(flash, d, due);
      && SameOutside(flash, g, Floor(d, due), hi)
      && forall i :: d - FLASH_BASE <= i < hi - FLASH_BASE ==> g[i] == ERASED
  {
  }

  /** The possible ends of an iteration: a timeout after part of its effect, or all of it. */
  lemma IterationShape(c: Chip, ram: Ram, d: int, s: int, due: bool)
    requires CellInFlash(d) && PageInFlash(PageAddress(d))
    ensures
      var (c', exit) := Iteration(c, ram, d, s, due);
      var g := AfterIteration(c.flash, ram, d, s, due);
      && (Healthy(c) ==> !exit.TimedOut? && Healthy(c'))
      && (c'.flash == c.flash || c'.flash == AfterErase(c.flash, d, due) || c'.flash == g)
      && c.log <= c'.log <= c.log + OpsOf(c.flash, ram, d, s, due)
      && (!exit.TimedOut? ==>
           && c'.flash == g && c'.log == c.log + OpsOf(c.flash, ram, d, s, due)
           && (exit == Copied <==> HalfWordAt(g, d) == PeekHalfWord(g, ram, s)))
  {
    hide ErasedImage, ProgrammedImage, HalfWordAt, PeekHalfWord, PageAddress;
  }

  /** A primed iteration only changes the rest of its page, ends with the cell holding what the source held after
      the erase, leaves the page primed for the next cell, and always passes its verification. */
  lemma PrimedImage(flash: Image, ram: Ram, d: int, s: int, es: int, ee: int)
    requires CellInFlash(d) && s % 2 == 0 && Primed(flash, d, es, ee)
    ensures PageInFlash(PageAddress(d))
    ensures
      var due := d >= ee || d < es;
      var hi := PageAddress(d) + FLASH_PAGE_SIZE;
      var erased := AfterErase(flash, d, due);
      var g := AfterIteration(flash, ram, d, s, due);
      && Blank(erased, d)
      && SameOutside(flash, erased, Floor(d, due), hi)
      && SameOutside(flash, g, Floor(d, due), hi)
      && HalfWordAt(g, d) == PeekHalfWord(erased, ram, s) == PeekHalfWord(g, ram, s)
      && Primed(g, d + 2, d + 2, hi)
  {
    hide AfterErase, ProgrammedImage, PeekHalfWord;
    var due := d >= ee || d < es;
    ErasePrimes(flash, d, es, ee);
    ProgramKeepsSource(AfterErase(flash, d, due), ram, d, s);
  }

  /** The operations logged between two moments. */
  function Since(before: seq<FlashOp>, after: seq<FlashOp>): seq<FlashOp>
    requires |before| <= |after|
  {
    after[|before|..]
  }

  lemma IterationDisciplined(flash: Image, ram: Ram, d: int, s: int, due: bool, ops: seq<FlashOp>)
    requires CellInFlash(d) && PageInFlash(PageAddress(d)) && Blank(AfterErase(flash, d, due), d)
    requires ops <= OpsOf(flash, ram, d, s, due)
    ensures Disciplined(ops, Floor(d, due), PageAddress(d) + FLASH_PAGE_SIZE)
    ensures forall k :: 0 <= k < |ops| ==> if ops[k].Program? then ops[k].at < d + 2 else ops[k].page < d + 2
  {
  }

  /** Discipline composes when the second list stays above the first. */
  lemma Stitch(a: seq<FlashOp>, b: seq<FlashOp>, lo: int, mid: int, top: int, hi: int)
    requires Disciplined(a, lo, top) && Disciplined(b, mid, hi) && lo <= mid && top <= hi
    requires forall k :: 0 <= k < |a| ==> if a[k].Program? then a[k].at < mid else a[k].page < mid
    ensures Disciplined(a + b, lo, hi)
  {
  }

  /** From chip `c` to chip `c'` only [lo, hi) changed, by disciplined operations. */
  predicate Confined(c: Chip, c': Chip, lo: int, hi: int) {
    && SameOutside(c.flash, c'.flash, lo, hi)
    && c.log <= c'.log
    && Disciplined(Since(c.log, c'.log), lo, hi)
    && (Healthy(c) ==> Healthy(c'))
  }

  lemma ConfinedImage(c: Chip, c': Chip, lo: int, hi: int)
    requires Confined(c, c', lo, hi)
    ensures SameOutside(c.flash, c'.flash, lo, hi)
  {
  }

  lemma ConfinedSelf(c: Chip, lo: int, hi: int)
    ensures Confined(c, c, lo, hi)
  {
  }

  lemma ConfinedWider(c: Chip, c': Chip, lo: int, top: int, hi: int)
    requires Confined(c, c', lo, top) && top <= hi
    ensures Confined(c, c', lo, hi)
  {
  }

  lemma ConfinedThen(c: Chip, c1: Chip, c2: Chip, lo: int, mid: int, top: int, hi: int)
    requires Confined(c, c1, lo, top) && Confined(c1, c2, mid, hi) && lo <= mid && top <= hi
    requires forall k :: 0 <= k < |Since(c.log, c1.log)| ==>
      var op := Since(c.log, c1.log)[k]; if op.Program? then op.at < mid else op.page < mid
    ensures Confined(c, c2, lo, hi)
  {
    Stitch(Since(c.log, c1.log), Since(c1.log, c2.log), lo, mid, top, hi);
    assert Since(c.log, c2.log) == Since(c.log, c1.log) + Since(c1.log, c2.log);
  }

  lemma IterationConfined(c: Chip, ram: Ram, d: int, s: int, es: int, ee: int)
    requires CellInFlash(d) && s % 2 == 0 && Primed(c.flash, d, es, ee)
    ensures
      var due := d >= ee || d < es;
      var (c', exit) := Iteration(c, ram, d, s, due);
      var top := PageAddress(d) + FLASH_PAGE_SIZE;
      && Confined(c, c', Floor(d, due), top)
      && (forall k :: 0 <= k < |Since(c.log, c'.log)| ==>
            var op := Since(c.log, c'.log)[k]; if op.Program? then op.at < d + 2 else op.page < d + 2)
      && exit != Unverified
      && (Healthy(c) ==> exit == Copied && Healthy(c'))
      && (exit == Copied ==> Primed(c'.flash, d + 2, d + 2, top))
  {
    hide AfterErase, AfterIteration, Iteration, OpsOf, Disciplined;
    var due := d >= ee || d < es;
    PrimedImage(c.flash, ram, d, s, es, ee);
    IterationShape(c, ram, d, s, due);
    var (c', exit) := Iteration(c, ram, d, s, due);
    assert c'.log == c.log + Since(c.log, c'.log);
    IterationDisciplined(c.flash, ram, d, s, due, Since(c.log, c'.log));
  }

  lemma NextFloor(d: int)
    requires d % 2 == 0
    ensures
      var top := PageAddress(d) + FLASH_PAGE_SIZE;
      PageAddress(d) <= d && d + 2 <= top && Floor(d + 2, d + 2 >= top) == d + 2
  {
    hide PageAddress;
    var q, r := d / FLASH_PAGE_SIZE, d % FLASH_PAGE_SIZE;
    assert d == FLASH_PAGE_SIZE * q + r;
    EvenRest(d / 2, q, r);
    QuotientIs(d, q, r);
    if r == FLASH_PAGE_SIZE - 2 {
      QuotientIs(d + 2, q + 1, 0);
    }
  }

  /** In the page, an even address is at an even offset. */
  lemma EvenRest(half: int, q: int, r: int)
    requires 2 * half == FLASH_PAGE_SIZE * q + r && 0 <= r < FLASH_PAGE_SIZE
    ensures r <= FLASH_PAGE_SIZE - 2
  {
    assert r == 2 * (half - FLASH_PAGE_SIZE / 2 * q);
  }

  lemma PageBelow(d: int, hi: int)
    requires d < hi && hi % FLASH_PAGE_SIZE == 0
    ensures PageAddress(d) + FLASH_PAGE_SIZE <= hi
  {
    assert hi == FLASH_PAGE_SIZE * (hi / FLASH_PAGE_SIZE);
  }

  /** Every run of the copy loop, whatever times out: only the pages overlapping the destination change, every
      half-word is programmed at most once and blank, every page erased at most once. */
  lemma {:induction false} CopyConfined(c: Chip, ram: Ram, d: int, s: int, n: nat, es: int, ee: int, hi: int)
    requires FLASH_BASE <= d && d % 2 == 0 && s % 2 == 0 && Primed(c.flash, d, es, ee)
    requires d + 2 * n <= hi && hi % FLASH_PAGE_SIZE == 0
    ensures Confined(c, CopyLoop(false, c, ram, d, s, n, es, ee).0, Floor(d, d >= ee || d < es), hi)
    decreases n
  {
    hide Iteration, Confined;
    var due := d >= ee || d < es;
    if n == 0 || d >= FLASH_END {
      ConfinedSelf(c, Floor(d, due), hi);
    } else {
      var top := PageAddress(d) + FLASH_PAGE_SIZE;
      PageBelow(d, hi);
      NextFloor(d);
      IterationConfined(c, ram, d, s, es, ee);
      var (c1, exit) := Iteration(c, ram, d, s, due);
      if exit == Copied {
        CopyConfined(c1, ram, d + 2, s + 2, n - 1, d + 2, top, hi);
        var c2 := CopyLoop(false, c1, ram, d + 2, s + 2, n - 1, d + 2, top).0;
        ConfinedThen(c, c1, c2, Floor(d, due), d + 2, top, hi);
      } else {
        ConfinedWider(c, c1, Floor(d, due), top, hi);
      }
    }
  }

  // ---------- what a run copies ----------

  /** [d, d+len) of image `f` holds what [s, s+len) held in image `g` (or in RAM). */
  predicate Moved(f: Image, g: Image, ram: Ram, d: int, s: int, len: int) {
    forall a :: d <= a < d + len ==> Peek(f, ram, a) == Peek(g, ram, a + (s - d))
  }

  /** No source byte lies in flash between `lo` and the end of the page its destination is in,
      so each is still intact when its turn comes. */
  predicate SourceClear(d: int, s: int, len: int, lo: int) {
    forall a :: d <= a < d + len ==> !InFlash(a + (s - d)) || !(lo <= a + (s - d) < PageAddress(a) + FLASH_PAGE_SIZE)
  }

  lemma MovedOne(c: Chip, ram: Ram, d: int, s: int, es: int, ee: int)
    requires CellInFlash(d) && s % 2 == 0 && Primed(c.flash, d, es, ee)
    requires Iteration(c, ram, d, s, d >= ee || d < es).1 == Copied
    requires SourceClear(d, s, 2, Floor(d, d >= ee || d < es))
    ensures Moved(Iteration(c, ram, d, s, d >= ee || d < es).0.flash, c.flash, ram, d, s, 2)
  {
    hide Iteration, AfterErase, AfterIteration, OpsOf, ErasedImage, Primed, PageAddress;
    var due := d >= ee || d < es;
    PrimedImage(c.flash, ram, d, s, es, ee);
    IterationShape(c, ram, d, s, due);
    PageAddressPair(d);
    assert Peek(AfterErase(c.flash, d, due), ram, s) == Peek(c.flash, ram, s);
    assert Peek(AfterErase(c.flash, d, due), ram, s + 1) == Peek(c.flash, ram, s + 1);
  }

  lemma PageAddressPair(d: int)
    requires d % 2 == 0
    ensures PageAddress(d + 1) == PageAddress(d)
  {
    var q := d / FLASH_PAGE_SIZE;
    assert 1024 * q <= d < 1024 * q + 1024;
    assert d == 2 * (d / 2);
    assert 1024 * q <= d + 1 < 1024 * q + 1024;
    assert (d + 1) / FLASH_PAGE_SIZE == q;
  }

  lemma CeilingBounds(a: int)
    ensures a <= PageCeiling(a) < a + FLASH_PAGE_SIZE && PageCeiling(a) % FLASH_PAGE_SIZE == 0
    ensures a % FLASH_PAGE_SIZE == 0 ==> PageCeiling(a) == a
  {
    var q, r := a / FLASH_PAGE_SIZE, a % FLASH_PAGE_SIZE;
    assert a == FLASH_PAGE_SIZE * q + r;
    if r == 0 {
      QuotientIs(a + FLASH_PAGE_SIZE - 1, q, FLASH_PAGE_SIZE - 1);
    } else {
      QuotientIs(a + FLASH_PAGE_SIZE - 1, q + 1, r - 1);
    }
  }

  lemma QuotientIs(a: int, q: int, r: int)
    requires a == FLASH_PAGE_SIZE * q + r && 0 <= r < FLASH_PAGE_SIZE
    ensures a / FLASH_PAGE_SIZE == q && PageAddress(a) == FLASH_PAGE_SIZE * q && PageAddress(a) % FLASH_PAGE_SIZE == 0
  {
  }

  /** A loop whose first iteration succeeds is that iteration and the loop on the rest. */
  lemma CopyLoopStep(c: Chip, ram: Ram, d: int, s: int, n: nat, es: int, ee: int)
    requires n > 0 && CellInFlash(d) && s % 2 == 0 && Primed(c.flash, d, es, ee)
    requires Iteration(c, ram, d, s, d >= ee || d < es).1 == Copied
    ensures FLASH_BASE <= d + 2 && (d + 2) % 2 == 0
    ensures
      var due := d >= ee || d < es;
      var top := PageAddress(d) + FLASH_PAGE_SIZE;
      var c1 := Iteration(c, ram, d, s, due).0;
      && CopyLoop(false, c, ram, d, s, n, es, ee) == CopyLoop(false, c1, ram, d + 2, s + 2, n - 1, d + 2, top)
      && (Healthy(c) ==> Healthy(c1)) && Primed(c1.flash, d + 2, d + 2, top)
      && SameOutside(c.flash, c1.flash, Floor(d, due), top)
  {
    hide Iteration, Confined, Primed, PageAddress, SameOutside, CopyLoop, Since;
    var due := d >= ee || d < es;
    IterationConfined(c, ram, d, s, es, ee);
    ConfinedImage(c, Iteration(c, ram, d, s, due).0, Floor(d, due), PageAddress(d) + FLASH_PAGE_SIZE);
    PrimedEnd(c.flash, d, es, ee);
    EvenNext(d);
    CopyLoopNext(false, c, ram, d, s, n, es, ee);
  }

  lemma PrimedEnd(flash: Image, d: int, es: int, ee: int)
    requires Primed(flash, d, es, ee)
    ensures es <= d < ee ==> ee == PageAddress(d) + FLASH_PAGE_SIZE
  {
  }

  lemma CopyLoopStops(c: Chip, ram: Ram, d: int, s: int, n: nat, es: int, ee: int)
    requires FLASH_BASE <= d && d % 2 == 0 && (n == 0 || d >= FLASH_END)
    ensures CopyLoop(false, c, ram, d, s, n, es, ee) == (c, if n == 0 then Copied else Unverified)
  {
  }

  /** An iteration on healthy hardware succeeds. */
  lemma HealthyStep(c: Chip, ram: Ram, d: int, s: int, es: int, ee: int)
    requires CellInFlash(d) && s % 2 == 0 && Primed(c.flash, d, es, ee) && Healthy(c)
    ensures Iteration(c, ram, d, s, d >= ee || d < es).1 == Copied
  {
    hide Iteration, Confined, Primed, PageAddress, Since;
    IterationConfined(c, ram, d, s, es, ee);
  }

  /** A loop that ends as copied begins with a successful iteration. */
  lemma CopiedStep(c: Chip, ram: Ram, d: int, s: int, n: nat, es: int, ee: int)
    requires CellInFlash(d) && n > 0 && CopyLoop(false, c, ram, d, s, n, es, ee).1 == Copied
    ensures Iteration(c, ram, d, s, d >= ee || d < es).1 == Copied
  {
    hide Iteration, PageAddress, CopyLoop;
    CopyLoopNext(false, c, ram, d, s, n, es, ee);
  }

  lemma TimeoutCode(c: Chip, ram: Ram, d: int, s: int, due: bool)
    requires CellInFlash(d) && Iteration(c, ram, d, s, due).1.TimedOut?
    ensures Iteration(c, ram, d, s, due).1.code in {-10, -11, -12, -13}
  {
    hide ErasedImage, ProgrammedImage, Blank, Wait, PageAddress, HalfWordAt, PeekHalfWord;
  }

  /** Whatever times out, the verification of the loop never fails: unless it is cut short by a timeout it ends
      exactly as its bounds check says. On healthy hardware nothing times out. */
  lemma {:induction false} CopyExit(c: Chip, ram: Ram, d: int, s: int, n: nat, es: int, ee: int)
    requires FLASH_BASE <= d && d % 2 == 0 && s % 2 == 0 && Primed(c.flash, d, es, ee)
    ensures
      var exit := CopyLoop(false, c, ram, d, s, n, es, ee).1;
      && (if exit.TimedOut? then exit.code in {-10, -11, -12, -13}
          else exit == if n == 0 || d + 2 * n <= FLASH_END then Copied else Unverified)
      && (Healthy(c) ==> !exit.TimedOut?)
    decreases n
  {
    hide Iteration, CopyLoop, Primed, PageAddress, Confined, Since;
    if n == 0 || d >= FLASH_END {
      CopyLoopStops(c, ram, d, s, n, es, ee);
    } else {
      var due := d >= ee || d < es;
      IterationConfined(c, ram, d, s, es, ee);
      var (c1, exit) := Iteration(c, ram, d, s, due);
      if exit == Copied {
        CopyLoopStep(c, ram, d, s, n, es, ee);
        CopyExit(c1, ram, d + 2, s + 2, n - 1, d + 2, PageAddress(d) + FLASH_PAGE_SIZE);
      } else {
        TimeoutCode(c, ram, d, s, due);
        CopyLoopNext(false, c, ram, d, s, n, es, ee);
      }
    }
  }

  /** What the rest of the loop leaves alone: everything below the next cell. */
  lemma RestKeepsBelow(c: Chip, ram: Ram, d: int, s: int, n: nat, top: int)
    requires CellInFlash(d) && s % 2 == 0 && top == PageAddress(d) + FLASH_PAGE_SIZE
      && Primed(c.flash, d + 2, d + 2, top)
    ensures SameOutside(c.flash, CopyLoop(false, c, ram, d + 2, s + 2, n, d + 2, top).0.flash, d + 2,
      PageCeiling(d + 2 + 2 * n))
  {
    hide Confined, Primed, CopyLoop, SameOutside, PageAddress, PageCeiling, Floor;
    NextFloor(d);
    EvenNext(d);
    EvenNext(s);
    var hi := PageCeiling(d + 2 + 2 * n);
    CeilingBounds(d + 2 + 2 * n);
    CopyConfined(c, ram, d + 2, s + 2, n, d + 2, top, hi);
    ConfinedImage(c, CopyLoop(false, c, ram, d + 2, s + 2, n, d + 2, top).0, d + 2, hi);
  }

  lemma MovedNone(c: Chip, ram: Ram, d: int, s: int, es: int, ee: int)
    requires FLASH_BASE <= d && d % 2 == 0
    ensures Moved(CopyLoop(false, c, ram, d, s, 0, es, ee).0.flash, c.flash, ram, d, s, 0)
  {
  }

  /** Each erase destroys only source already consumed: on any hardware, a loop that ends as copied is then a true
      move, overlapping or not. */
  lemma {:induction false} CopyMoves(c: Chip, ram: Ram, d: int, s: int, n: nat, es: int, ee: int)
    requires CellInFlash(d) && d + 2 * n <= FLASH_END && s % 2 == 0 && Primed(c.flash, d, es, ee)
    requires CopyLoop(false, c, ram, d, s, n, es, ee).1 == Copied
    requires SourceClear(d, s, 2 * n, Floor(d, d >= ee || d < es))
    ensures Moved(CopyLoop(false, c, ram, d, s, n, es, ee).0.flash, c.flash, ram, d, s, 2 * n)
    decreases n
  {
    hide Iteration, CopyLoop, SameOutside, Moved, Primed, PageAddress, PageCeiling;
    if n == 0 {
      MovedNone(c, ram, d, s, es, ee);
    } else {
      var due := d >= ee || d < es;
      var top := PageAddress(d) + FLASH_PAGE_SIZE;
      CopiedStep(c, ram, d, s, n, es, ee);
      CopyLoopStep(c, ram, d, s, n, es, ee);
      MovedOne(c, ram, d, s, es, ee);
      var c1 := Iteration(c, ram, d, s, due).0;
      RestKeepsBelow(c1, ram, d, s, n - 1, top);
      NextFloor(d);
      if n == 1 {
        MovedNone(c1, ram, d + 2, s + 2, d + 2, top);
      } else {
        assert SourceClear(d + 2, s + 2, 2 * (n - 1), d + 2);
        CopyMoves(c1, ram, d + 2, s + 2, n - 1, d + 2, top);
      }
      var c2 := CopyLoop(false, c1, ram, d + 2, s + 2, n - 1, d + 2, top).0;
      MovedThen(c.flash, c1.flash, c2.flash, ram, d, s, n, Floor(d, due), top);
    }
  }

  lemma MovedThen(f0: Image, f1: Image, f2: Image, ram: Ram, d: int, s: int, n: nat, lo: int, top: int)
    requires n > 0 && CellInFlash(d) && top == PageAddress(d) + FLASH_PAGE_SIZE && lo <= d
    requires SourceClear(d, s, 2 * n, lo) && SameOutside(f0, f1, lo, top)
      && SameOutside(f1, f2, d + 2, PageCeiling(d + 2 * n))
    requires Moved(f1, f0, ram, d, s, 2) && Moved(f2, f1, ram, d + 2, s + 2, 2 * (n - 1))
    ensures Moved(f2, f0, ram, d, s, 2 * n)
  {
    forall a | d <= a < d + 2 * n
      ensures Peek(f2, ram, a) == Peek(f0, ram, a + (s - d))
    {
      if a < d + 2 {
        assert Peek(f2, ram, a) == Peek(f1, ram, a);
      } else {
        assert PageAddress(a) >= PageAddress(d);
        assert Peek(f1, ram, a + (s - d)) == Peek(f0, ram, a + (s - d));
      }
    }
  }

  /** A cell already below the copy that is still to be read is read back as it is now, not as it was at first. */
  lemma {:induction false} ReadsBack(c: Chip, ram: Ram, d: int, s: int, n: nat, es: int, ee: int, cell: int)
    requires CellInFlash(d) && d + 2 * n <= FLASH_END && s % 2 == 0 && Primed(c.flash, d, es, ee) && Healthy(c)
    requires CellInFlash(cell) && s <= cell < s + 2 * n && cell < Floor(d, d >= ee || d < es)
    ensures Peek(CopyLoop(false, c, ram, d, s, n, es, ee).0.flash, ram, d + (cell - s)) == Peek(c.flash, ram, cell)
    decreases n
  {
    hide Iteration, CopyLoop, Primed, PageAddress, PageCeiling, SourceClear;
    var due := d >= ee || d < es;
    var top := PageAddress(d) + FLASH_PAGE_SIZE;
    HealthyStep(c, ram, d, s, es, ee);
    CopyLoopStep(c, ram, d, s, n, es, ee);
    var c1 := Iteration(c, ram, d, s, due).0;
    NextFloor(d);
    if cell == s {
      PageAddressEven(d);
      PairClear(d, s, Floor(d, due));
      MovedOne(c, ram, d, s, es, ee);
      RestKeepsBelow(c1, ram, d, s, n - 1, top);
      assert Peek(c1.flash, ram, d) == Peek(c.flash, ram, s);
    } else {
      ReadsBack(c1, ram, d + 2, s + 2, n - 1, d + 2, top, cell);
      assert c1.flash[cell - FLASH_BASE] == c.flash[cell - FLASH_BASE];
    }
  }

  lemma PageAddressEven(d: int)
    ensures PageAddress(d) % 2 == 0
  {
    TwiceIsEven(FLASH_PAGE_SIZE / 2 * (d / FLASH_PAGE_SIZE));
  }

  lemma TwiceIsEven(k: int)
    ensures 2 * k % 2 == 0
  {
  }

  lemma PairClear(d: int, s: int, lo: int)
    requires s % 2 == 0 && lo % 2 == 0 && s < lo
    ensures SourceClear(d, s, 2, lo)
  {
  }

  /** A fresh run of the copy loop over image `f` on fault-free hardware. */
  function CopiedImage(f: Image, ram: Ram, d: int, s: int, n: nat): Image
    requires FLASH_BASE <= d && d % 2 == 0
  {
    CopyLoop(false, Chip(f, [], []), ram, d, s, n, 0, 0).0.flash
  }

  /** Copying from inside the page that is erased first reads the erase back. */
  lemma SamePageCopyFails(ram: Ram, d: int, s: int, n: nat)
    requires CellInFlash(d) && d % FLASH_PAGE_SIZE == 0 && n > 0 && d + 2 * n <= FLASH_END
    requires s % 2 == 0 && d <= s < d + FLASH_PAGE_SIZE
    ensures
      var f: Image := seq(FLASH_SIZE, _ => 0);
      !Moved(CopiedImage(f, ram, d, s, n), f, ram, d, s, 2 * n)
  {
    hide CopyLoop, Primed, Moved;
    var f: Image := seq(FLASH_SIZE, _ => 0);
    var c := Chip(f, [], []);
    var top := PageAddress(d) + FLASH_PAGE_SIZE;
    StartsPrimed(f, d);
    HealthyStep(c, ram, d, s, 0, 0);
    CopyLoopStep(c, ram, d, s, n, 0, 0);
    PrimedImage(f, ram, d, s, 0, 0);
    IterationShape(c, ram, d, s, true);
    var c1 := Iteration(c, ram, d, s, true).0;
    RestKeepsBelow(c1, ram, d, s, n - 1, top);
    assert Peek(AfterErase(f, d, true), ram, s) == ERASED;
    assert Peek(CopiedImage(f, ram, d, s, n), ram, d) == ERASED;
    NotMoved(CopiedImage(f, ram, d, s, n), f, ram, d, s, 2 * n, d);
  }

  lemma StartsPrimed(f: Image, d: int)
    requires FLASH_BASE <= d
    ensures Primed(f, d, 0, 0)
  {
  }

  lemma NotMoved(f: Image, g: Image, ram: Ram, d: int, s: int, len: int, a: int)
    requires d <= a < d + len && Peek(f, ram, a) != Peek(g, ram, a + (s - d))
    ensures !Moved(f, g, ram, d, s, len)
  {
  }

  /** Copying upwards over the end of the source repeats its beginning. */
  lemma UpwardCopyFails(ram: Ram, d: int, s: int, n: nat)
    requires CellInFlash(d) && d % FLASH_PAGE_SIZE == 0 && n > 0 && d + 2 * n <= FLASH_END
    requires CellInFlash(s) && s < d < s + 2 * n
    ensures
      var f: Image := seq(FLASH_SIZE, i => if i == d - FLASH_BASE then 1 else 0);
      !Moved(CopiedImage(f, ram, d, s, n), f, ram, d, s, 2 * n)
  {
    hide CopyLoop, Primed, Moved, Iteration, PageAddress, SourceClear;
    var f: Image := seq(FLASH_SIZE, i => if i == d - FLASH_BASE then 1 else 0);
    var c := Chip(f, [], []);
    var top := PageAddress(d) + FLASH_PAGE_SIZE;
    StartsPrimed(f, d);
    HealthyStep(c, ram, d, s, 0, 0);
    CopyLoopStep(c, ram, d, s, n, 0, 0);
    NextFloor(d);
    var c1 := Iteration(c, ram, d, s, true).0;
    AlignedPage(d);
    PairClear(d, s, PageAddress(d));
    MovedOne(c, ram, d, s, 0, 0);
    MovedFirst(c1.flash, f, ram, d, s);
    ReadsBack(c1, ram, d + 2, s + 2, n - 1, d + 2, top, d);
    var a := d + (d - s);
    assert Peek(CopiedImage(f, ram, d, s, n), ram, a) == 0;
    NotMoved(CopiedImage(f, ram, d, s, n), f, ram, d, s, 2 * n, a);
  }

  lemma AlignedPage(d: int)
    requires d % FLASH_PAGE_SIZE == 0
    ensures PageAddress(d) == d
  {
  }

  lemma MovedFirst(f: Image, g: Image, ram: Ram, d: int, s: int)
    requires Moved(f, g, ram, d, s, 2)
    ensures Peek(f, ram, d) == Peek(g, ram, s)
  {
    assert Peek(f, ram, d) == Peek(g, ram, d + (s - d));
  }

  /** Exactly when copying within flash to a page boundary is a move, whatever flash holds: the source starts a page
      or more above the destination, or ends at or below it. */
  lemma MoveIff(ram: Ram, d: int, s: int, n: nat)
    requires CellInFlash(d) && d % FLASH_PAGE_SIZE == 0 && n > 0 && d + 2 * n <= FLASH_END
    requires CellInFlash(s) && s + 2 * n <= FLASH_END
    ensures (forall f: Image :: Moved(CopiedImage(f, ram, d, s, n), f, ram, d, s, 2 * n))
       <==> (s >= d + FLASH_PAGE_SIZE || s + 2 * n <= d)
  {
    hide CopyLoop, Moved, Primed, CopiedImage;
    if s >= d + FLASH_PAGE_SIZE || s + 2 * n <= d {
      forall f: Image
        ensures Moved(CopiedImage(f, ram, d, s, n), f, ram, d, s, 2 * n)
      {
        CopiedImageMoves(f, ram, d, s, n);
      }
    } else if d <= s {
      SamePageCopyFails(ram, d, s, n);
    } else {
      UpwardCopyFails(ram, d, s, n);
    }
  }

  lemma CopiedImageMoves(f: Image, ram: Ram, d: int, s: int, n: nat)
    requires CellInFlash(d) && d + 2 * n <= FLASH_END && s % 2 == 0
    requires s >= d + FLASH_PAGE_SIZE || s + 2 * n <= PageAddress(d) || RAM_BASE <= s
    ensures Moved(CopiedImage(f, ram, d, s, n), f, ram, d, s, 2 * n)
  {
    hide CopyLoop, Moved, Primed;
    StartsPrimed(f, d);
    ClearSource(d, s, n);
    CopyExit(Chip(f, [], []), ram, d, s, n, 0, 0);
    CopyMoves(Chip(f, [], []), ram, d, s, n, 0, 0);
  }

  lemma ClearSource(d: int, s: int, n: nat)
    requires s >= d + FLASH_PAGE_SIZE || s + 2 * n <= PageAddress(d) || RAM_BASE <= s
    requires InFlash(d)
    ensures SourceClear(d, s, 2 * n, PageAddress(d))
  {
  }

  // ---------- whole calls of baseloader_start ----------

  /** In every real call, on any hardware, only the pages overlapping [dest, dest + byteCount) change, and the
      operations issued are disciplined. */
  lemma StartConfined(p: Para, c: Chip, ram: Ram)
    requires Aligned(p) && !p.preview
    ensures Confined(c, Start(p, c, ram).chip, PageAddress(p.dest), PageCeiling(p.dest + p.byteCount / 2 * 2))
  {
    hide Confined, CopyLoop, Primed;
    var hi := PageCeiling(p.dest + p.byteCount / 2 * 2);
    if Validate(p) < 0 {
      ConfinedSelf(c, PageAddress(p.dest), hi);
    } else {
      CeilingBounds(p.dest + p.byteCount / 2 * 2);
      StartsPrimed(c.flash, p.dest);
      CopyConfined(c, ram, p.dest, p.src, p.byteCount / 2, 0, 0, hi);
    }
  }

  /** A preview loop touches nothing and ends as the bounds check says. */
  lemma {:induction false} PreviewLoop(c: Chip, ram: Ram, d: int, s: int, n: nat, es: int, ee: int)
    requires FLASH_BASE <= d && d % 2 == 0
    ensures CopyLoop(true, c, ram, d, s, n, es, ee) ==
      (c, if n == 0 || d + 2 * n <= FLASH_END then Copied else Unverified)
    decreases n
  {
    if n > 0 && d < FLASH_END {
      var due := d >= ee || d < es;
      PreviewLoop(c, ram, d + 2, s + 2, n - 1, d + 2, if due then PageAddress(d) + FLASH_PAGE_SIZE else ee);
    }
  }

  /** A preview changes nothing and predicts the result of the real call on fault-free hardware, for all parameters. */
  lemma PreviewPredicts(p: Para, c: Chip, ram: Ram)
    requires Aligned(p) && Healthy(c)
    ensures
      var preview := Start(p.(preview := true), c, ram);
      var actual := Start(p.(preview := false), c, ram);
      preview.chip == c && !preview.reset && preview.result == actual.result
  {
    hide CopyLoop, Primed;
    if Validate(p) == 0 {
      StartsPrimed(c.flash, p.dest);
      PreviewLoop(c, ram, p.dest, p.src, p.byteCount / 2, 0, 0);
      CopyExit(c, ram, p.dest, p.src, p.byteCount / 2, 0, 0);
    }
  }

  /** A successful preview means the whole copy fits into flash: the real call can only fail on faulty hardware. */
  lemma PreviewMeansFits(p: Para, c: Chip, ram: Ram)
    requires Aligned(p) && p.preview && Start(p, c, ram).result > 0
    ensures FLASH_BASE <= p.dest && p.dest + p.byteCount / 2 * 2 <= FLASH_END
    ensures Start(p, c, ram).result == p.byteCount / 2 * 2
  {
    hide CopyLoop;
    PreviewLoop(c, ram, p.dest, p.src, p.byteCount / 2, 0, 0);
  }

  /** A real call that reports success, on any hardware, has moved all the bytes, provided the source is in RAM,
      starts a page above the destination, or ends below the destination's page. */
  lemma StartMoves(p: Para, c: Chip, ram: Ram)
    requires Aligned(p) && !p.preview && Start(p, c, ram).result > 0
    requires RAM_BASE <= p.src || p.src >= p.dest + FLASH_PAGE_SIZE || p.src + p.byteCount <= PageAddress(p.dest)
    ensures Moved(Start(p, c, ram).chip.flash, c.flash, ram, p.dest, p.src, p.byteCount / 2 * 2)
  {
    hide CopyLoop, Moved, Primed;
    StartsPrimed(c.flash, p.dest);
    CopyExit(c, ram, p.dest, p.src, p.byteCount / 2, 0, 0);
    ClearSource(p.dest, p.src, p.byteCount / 2);
    CopyMoves(c, ram, p.dest, p.src, p.byteCount / 2, 0, 0);
  }

  /** Exactly when a call refuses its parameters, and with which code: by the 32-bit sums of the checks, in their order.
      A call that is refused leaves the chip as it was and returns. */
  lemma RefusedIff(p: Para, c: Chip, ram: Ram)
    requires Aligned(p)
    ensures
      var o := Start(p, c, ram);
      var low := p.dest < 0x0800_0000;
      var high := (p.dest + p.byteCount) % 0x1_0000_0000 > 0x0801_0000;
      var end := (p.src + p.byteCount) % 0x1_0000_0000;
      var rom, sram := 0x0800_0000 <= p.src < 0x0801_0000, 0x2000_0000 <= p.src < 0x2000_5000;
      && (o.result == -2 <==> low)
      && (o.result == -3 <==> !low && high)
      && (o.result == -4 <==> !low && !high && rom && end > 0x0801_0000)
      && (o.result == -5 <==> !low && !high && sram && end > 0x2000_5000)
      && (o.result == -6 <==> !low && !high && !rom && !sram)
      && (o.result in {-2, -3, -4, -5, -6} ==> o.chip == c && !o.reset)
  {
    hide CopyLoop, Primed;
    if Validate(p) == 0 {
      StartsPrimed(c.flash, p.dest);
      StartExit(p, c, ram);
    }
  }

  /** How the loop of a call that is not refused ends. */
  lemma StartExit(p: Para, c: Chip, ram: Ram)
    requires Aligned(p) && Validate(p) == 0 && FLASH_BASE <= p.dest
    ensures
      var exit := CopyLoop(p.preview, c, ram, p.dest, p.src, p.byteCount / 2, 0, 0).1;
      exit.TimedOut? ==> exit.code in {-10, -11, -12, -13}
  {
    hide CopyLoop, Primed;
    StartsPrimed(c.flash, p.dest);
    if p.preview {
      PreviewLoop(c, ram, p.dest, p.src, p.byteCount / 2, 0, 0);
    } else {
      CopyExit(c, ram, p.dest, p.src, p.byteCount / 2, 0, 0);
    }
  }

  /** Without wrap-around, a call is accepted exactly if destination and source lie in flash, or the source in RAM. */
  lemma AcceptedIff(p: Para)
    requires p.dest + p.byteCount < 0x1_0000_0000 && p.src + p.byteCount < 0x1_0000_0000
    ensures Validate(p) == 0 <==>
      && FLASH_BASE <= p.dest && p.dest + p.byteCount <= FLASH_END
      && ((InFlash(p.src) && p.src + p.byteCount <= FLASH_END) || (InRam(p.src) && p.src + p.byteCount <= RAM_END))
  {
    assert Wrap(p.dest + p.byteCount) == p.dest + p.byteCount && Wrap(p.src + p.byteCount) == p.src + p.byteCount;
  }

  /** Exactly when a call restarts the device: when it was asked to and was no preview, and ended with a count or a
      failed verification. Refusals (-2 to -6) and timeouts (-10 to -13) return. */
  lemma ResetIff(p: Para, c: Chip, ram: Ram)
    requires Aligned(p)
    ensures
      var o := Start(p, c, ram);
      && (o.reset <==> p.restart && !p.preview && o.result >= -1)
      && (o.result < -1 ==> o.result in {-2, -3, -4, -5, -6, -10, -11, -12, -13})
  {
    hide CopyLoop, Primed;
    if Validate(p) == 0 {
      StartExit(p, c, ram);
    }
  }

  /** One pass of the loop. */
  lemma CopyLoopNext(preview: bool, c: Chip, ram: Ram, d: int, s: int, n: nat, es: int, ee: int)
    requires FLASH_BASE <= d && d % 2 == 0 && n > 0
    ensures FLASH_BASE <= d + 2 && (d + 2) % 2 == 0
    ensures
      var due := d >= ee || d < es;
      var ee' := if due then PageAddress(d) + FLASH_PAGE_SIZE else ee;
      CopyLoop(preview, c, ram, d, s, n, es, ee) ==
        if d >= FLASH_END then (c, Unverified)
        else
          var (c', exit) := if preview then (c, Copied) else Iteration(c, ram, d, s, due);
          if exit != Copied then (c', exit) else CopyLoop(preview, c', ram, d + 2, s + 2, n - 1, d + 2, ee')
  {
    hide Iteration, PageAddress, HalfWordAt, Blank, Peek;
    EvenNext(d);
  }

  lemma AcceptedDest(p: Para)
    ensures Validate(p) <= 0 && (Validate(p) == 0 ==> FLASH_BASE <= p.dest)
  {
  }

  lemma EvenNext(d: int)
    ensures d % 2 == 0 ==> (d + 2) % 2 == 0
  {
  }

  lemma CopyLoopDone(preview: bool, c: Chip, ram: Ram, d: int, s: int, es: int, ee: int)
    requires FLASH_BASE <= d && d % 2 == 0
    ensures CopyLoop(preview, c, ram, d, s, 0, es, ee) == (c, Copied)
  {
  }

  /** baseloader_start over mutable flash: base_para and base_tmp are the fields. */
  class Copier {
    const chip: Flash
    var para: Para
    var result: int
    var destHw: int
    var srcHw: int
    var halfWordCount: nat
    var bytesFlashed: nat
    var verified: bool
    var eraseStart: int
    var eraseEnd: int

    ghost predicate Valid()
      reads this, chip
    {
      chip.Valid()
    }

    constructor (chip: Flash)
      requires chip.Valid()
      ensures Valid() && this.chip == chip
    {
      this.chip := chip;
      para := Para(0, 0, 0, false, false);
      result := 0;
      destHw, srcHw, halfWordCount, bytesFlashed, verified, eraseStart, eraseEnd := 0, 0, 0, 0, false, 0, 0;
    }

    method PeekAt(ram: Ram, a: int) returns (b: Byte)
      requires Valid()
      ensures b == Peek(chip.Value().flash, ram, a)
    {
      if InFlash(a) { return chip.cells[a - FLASH_BASE]; }
      if InRam(a) { return ram[a - RAM_BASE]; }
      return OPEN_BUS;
    }

    /** The checks before flashing: sets `result` to the error code, if any. */
    method ValidatePara()
      modifies this`result
      ensures result == Validate(para)
    {
      result := 0;
      if para.dest < 0x0800_0000 {
        result := -2;
      } else if Wrap(para.dest + para.byteCount) > 0x0801_0000 {
        result := -3;
      } else if 0x0800_0000 <= para.src < 0x0801_0000 {
        if Wrap(para.src + para.byteCount) > 0x0801_0000 { result := -4; }
      } else if 0x2000_0000 <= para.src < 0x2000_5000 {
        if Wrap(para.src + para.byteCount) > 0x2000_5000 { result := -5; }
      } else {
        result := -6;
      }
    }

    /** Erases the page of `destHw` if due, then programs and verifies one half-word. */
    method FlashHalfWord(ram: Ram, due: bool) returns (exit: LoopExit)
      requires Valid() && CellInFlash(destHw) && (due ==> eraseStart == PageAddress(destHw))
      modifies this`result, chip, chip.cells
      ensures Valid()
      ensures (chip.Value(), exit) == Iteration(old(chip.Value()), ram, destHw, srcHw, due)
      ensures result == if exit.TimedOut? then exit.code else 0
      ensures exit.TimedOut? ==> exit.code < 0
    {
      hide ErasedImage, ProgramStep;
      result := 0;
      if due {
        result := chip.EraseFlashPage(eraseStart);
        if result < 0 { return TimedOut(result); }
      }
      exit := ProgramAndCheck(ram);
    }

    method ProgramAndCheck(ram: Ram) returns (exit: LoopExit)
      requires Valid() && CellInFlash(destHw)
      modifies this`result, chip, chip.cells
      ensures Valid()
      ensures (chip.Value(), exit) == ProgramStep(old(chip.Value()), ram, destHw, srcHw)
      ensures result == if exit.TimedOut? then exit.code else 0
      ensures exit.TimedOut? ==> exit.code < 0
    {
      hide ProgrammedImage, Blank;
      var lo := PeekAt(ram, srcHw);
      var hi := PeekAt(ram, srcHw + 1);
      result := chip.ProgramFlashHalfWord(destHw, HalfWord(lo, hi));
      if result < 0 { return TimedOut(result); }
      lo := PeekAt(ram, srcHw);
      hi := PeekAt(ram, srcHw + 1);
      if chip.cells[destHw - FLASH_BASE] != lo || chip.cells[destHw + 1 - FLASH_BASE] != hi { return Unverified; }
      exit := Copied;
    }

    /** The while loop: `exit` is how it ended. */
    method CopyHalfWords(ram: Ram) returns (exit: LoopExit)
      requires Valid() && FLASH_BASE <= destHw && destHw % 2 == 0 && result == 0
      modifies this, chip, chip.cells
      ensures Valid() && para == old(para)
      ensures (chip.Value(), exit) ==
        CopyLoop(para.preview, old(chip.Value()), ram, old(destHw), old(srcHw), old(halfWordCount), old(eraseStart),
            old(eraseEnd))
      ensures result == (if exit.TimedOut? then exit.code else 0) && (exit.TimedOut? ==> exit.code < 0)
      ensures exit == Copied ==> bytesFlashed == old(bytesFlashed) + 2 * old(halfWordCount)
    {
      hide Iteration, PageAddress, CopyLoop;
      ghost var whole := CopyLoop(para.preview, chip.Value(), ram, destHw, srcHw, halfWordCount, eraseStart, eraseEnd);
      while halfWordCount > 0
        invariant Valid() && para == old(para) && result == 0 && FLASH_BASE <= destHw && destHw % 2 == 0
        invariant bytesFlashed + 2 * halfWordCount == old(bytesFlashed) + 2 * old(halfWordCount)
        invariant CopyLoop(para.preview, chip.Value(), ram, destHw, srcHw, halfWordCount, eraseStart, eraseEnd) == whole
        decreases halfWordCount
      {
        CopyLoopNext(para.preview, chip.Value(), ram, destHw, srcHw, halfWordCount, eraseStart, eraseEnd);
        if destHw >= FLASH_END { return Unverified; }
        var due := destHw >= eraseEnd || destHw < eraseStart;
        if due {
          eraseStart := PageAddress(destHw);
          eraseEnd := eraseStart + FLASH_PAGE_SIZE;
        }
        if !para.preview {
          exit := FlashHalfWord(ram, due);
          if exit != Copied { return; }
        }
        EvenNext(destHw);
        eraseStart := destHw + 2;
        destHw, srcHw := destHw + 2, srcHw + 2;
        halfWordCount := halfWordCount - 1;
        bytesFlashed := bytesFlashed + 2;
      }
      CopyLoopDone(para.preview, chip.Value(), ram, destHw, srcHw, eraseStart, eraseEnd);
      exit := Copied;
    }

    method BaseloaderStart(ram: Ram) returns (reset: bool)
      requires Valid() && Aligned(para)
      modifies this, chip, chip.cells
      ensures Valid() && para == old(para)
      ensures Outcome(chip.Value(), result, reset) == Start(para, old(chip.Value()), ram)
    {
      hide CopyLoop, Validate;
      reset := false;
      destHw, srcHw, halfWordCount := para.dest, para.src, para.byteCount / 2;
      bytesFlashed, eraseStart, eraseEnd := 0, 0, 0;
      ValidatePara();
      AcceptedDest(para);
      if result < 0 { return; }
      var exit := CopyHalfWords(ram);
      if result < 0 { return; }
      verified := exit == Copied;
      result := if verified then bytesFlashed else -1;
      reset := !para.preview && para.restart;
    }
  }
}
