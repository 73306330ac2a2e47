// The flash controller as the Baseloader drives it: page erase, half-word program and busy-waits that may time out.

module FlashHardware {
  import opened Platform

  datatype HalfWord = HalfWord(lo: Byte, hi: Byte)

  /** One operation the controller carried out; `blank` tells whether the programmed cell was erased at that moment. */
  datatype FlashOp =
    | Erase(page: int)
    | Program(at: int, value: HalfWord, blank: bool)

  /** Flash contents, how the coming busy-waits end (true: the busy flag outlasts the timeout; an empty script
      means no further timeout) and every operation carried out so far. */
  datatype Chip = Chip(flash: Image, waits: seq<bool>, log: seq<FlashOp>)

  const TIMEOUT_BEFORE_PROGRAM := -10
  const TIMEOUT_AFTER_PROGRAM := -11
  const TIMEOUT_BEFORE_ERASE := -12
  const TIMEOUT_AFTER_ERASE := -13

  /** Fault-free hardware. */
  predicate Healthy(c: Chip) {
    c.waits == []
  }

  function Wait(c: Chip): (r: (Chip, bool))
    ensures r.0.flash == c.flash && r.0.log == c.log
    ensures Healthy(c) ==> r.0 == c && !r.1
  {
    if c.waits == [] then (c, false) else (c.(waits := c.waits[1..]), c.waits[0])
  }

  predicate PageInFlash(page: int) {
    FLASH_BASE <= page && page + FLASH_PAGE_SIZE <= FLASH_END && page % FLASH_PAGE_SIZE == 0
  }

  predicate CellInFlash(at: int) {
    FLASH_BASE <= at && at + 2 <= FLASH_END && at % 2 == 0
  }

  function HalfWordAt(flash: Image, at: int): HalfWord
    requires CellInFlash(at)
  {
    HalfWord(flash[at - FLASH_BASE], flash[at + 1 - FLASH_BASE])
  }

  predicate Blank(flash: Image, at: int)
    requires CellInFlash(at)
  {
    HalfWordAt(flash, at) == HalfWord(ERASED, ERASED)
  }

  function ErasedImage(flash: Image, page: int): (r: Image)
    requires PageInFlash(page)
    ensures forall i :: 0 <= i < FLASH_SIZE ==>
      r[i] == if page <= i + FLASH_BASE < page + FLASH_PAGE_SIZE then ERASED else flash[i]
  {
    Overlay(flash, page - FLASH_BASE, seq(FLASH_PAGE_SIZE, _ => ERASED))
  }

  /** base_flash_erase_page: chip afterwards, and 0 or a negative timeout code. */
  function ErasePage(c: Chip, page: int): (r: (Chip, int))
    requires PageInFlash(page)
  {
    var (before, late) := Wait(c);
    if late then (before, TIMEOUT_BEFORE_ERASE)
    else
      var (after, stuck) := Wait(before.(flash := ErasedImage(c.flash, page), log := c.log + [Erase(page)]));
      (after, if stuck then TIMEOUT_AFTER_ERASE else 0)
  }

  /** A cell that is not blank keeps its contents: the controller skips the operation and raises PGERR. */
  function ProgrammedImage(flash: Image, at: int, value: HalfWord): Image
    requires CellInFlash(at)
  {
    if Blank(flash, at)
    then flash[at - FLASH_BASE := value.lo][at + 1 - FLASH_BASE := value.hi]
    else flash
  }

  /** base_flash_program_half_word: chip afterwards, and 0 or a negative timeout code. */
  function ProgramHalfWord(c: Chip, at: int, value: HalfWord): (r: (Chip, int))
    requires CellInFlash(at)
  {
    var (before, late) := Wait(c);
    if late then (before, TIMEOUT_BEFORE_PROGRAM)
    else
      var op := Program(at, value, Blank(c.flash, at));
      var (after, stuck) := Wait(before.(flash := ProgrammedImage(c.flash, at, value), log := c.log + [op]));
      (after, if stuck then TIMEOUT_AFTER_PROGRAM else 0)
  }

  /** How an erase ends, by the outcomes of its two busy-waits: the first timeout stops it before anything happens
      (-12); after the second the page is blank all the same (-13). */
  lemma EraseOutcome(c: Chip, page: int)
    requires PageInFlash(page)
    ensures
      var (r, code) := ErasePage(c, page);
      var late := c.waits != [] && c.waits[0];
      var stuck := |c.waits| > 1 && c.waits[1];
      && code == (if late then -12 else if stuck then -13 else 0)
      && (late ==> r.flash == c.flash && r.log == c.log)
      && (!late ==> r.log == c.log + [Erase(page)] && forall i :: 0 <= i < FLASH_SIZE ==>
            r.flash[i] == if page <= i + FLASH_BASE < page + 1024 then 0xFF else c.flash[i])
  {
  }

  /** How the programming of a half-word ends, likewise: before anything happens (-10), or done all the same (-11). The
      cell takes the value only if it was erased. */
  lemma ProgramOutcome(c: Chip, at: int, value: HalfWord)
    requires CellInFlash(at)
    ensures
      var (r, code) := ProgramHalfWord(c, at, value);
      var late := c.waits != [] && c.waits[0];
      var stuck := |c.waits| > 1 && c.waits[1];
      var blank := HalfWordAt(c.flash, at) == HalfWord(0xFF, 0xFF);
      && code == (if late then -10 else if stuck then -11 else 0)
      && (late ==> r.flash == c.flash && r.log == c.log)
      && (!late ==> r.log == c.log + [Program(at, value, blank)]
                    && HalfWordAt(r.flash, at) == (if blank then value else HalfWordAt(c.flash, at))
                    && forall i :: 0 <= i < FLASH_SIZE && i != at - FLASH_BASE && i != at + 1 - FLASH_BASE ==>
                         r.flash[i] == c.flash[i])
  {
  }

  class Flash {
    const cells: array<Byte>
    var waits: seq<bool>
    ghost var log: seq<FlashOp>

    ghost predicate Valid()
      reads this
    {
      cells.Length == FLASH_SIZE
    }

    ghost function Value(): Chip
      reads this, cells
      requires Valid()
    {
      Chip(cells[..], waits, log)
    }

    constructor (initial: array<Byte>, waits: seq<bool>)
      requires initial.Length == FLASH_SIZE
      ensures Valid() && cells == initial
      ensures Value() == Chip(initial[..], waits, [])
    {
      this.cells := initial;
      this.waits := waits;
      this.log := [];
    }

    method WaitForLastOperation() returns (timedOut: bool)
      requires Valid()
      modifies this
      ensures Valid() && (Value(), timedOut) == Wait(old(Value()))
    {
      timedOut := false;
      if waits != [] {
        timedOut := waits[0];
        waits := waits[1..];
      }
    }

    method EraseFlashPage(page: int) returns (result: int)
      requires Valid() && PageInFlash(page)
      modifies this, cells
      ensures Valid() && (Value(), result) == ErasePage(old(Value()), page)
    {
      var late := WaitForLastOperation();
      if late { return TIMEOUT_BEFORE_ERASE; }
      ghost var was := cells[..];
      var base := page - FLASH_BASE;
      forall i | base <= i < base + FLASH_PAGE_SIZE { cells[i] := ERASED; }
      assert cells[..] == ErasedImage(was, page);
      log := log + [Erase(page)];
      var stuck := WaitForLastOperation();
      result := if stuck then TIMEOUT_AFTER_ERASE else 0;
    }

    method ProgramFlashHalfWord(at: int, value: HalfWord) returns (result: int)
      requires Valid() && CellInFlash(at)
      modifies this, cells
      ensures Valid() && (Value(), result) == ProgramHalfWord(old(Value()), at, value)
    {
      var late := WaitForLastOperation();
      if late { return TIMEOUT_BEFORE_PROGRAM; }
      var i := at - FLASH_BASE;
      ghost var was := cells[..];
      log := log + [Program(at, value, Blank(was, at))];
      if cells[i] == ERASED && cells[i + 1] == ERASED {
        cells[i] := value.lo;
        cells[i + 1] := value.hi;
      }
      assert cells[..] == ProgrammedImage(was, at, value);
      var stuck := WaitForLastOperation();
      result := if stuck then TIMEOUT_AFTER_PROGRAM else 0;
    }
  }
}
