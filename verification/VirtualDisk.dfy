// ghostfat.c: the FAT16 volume synthesised sector by sector from the contents of flash.

module VirtualDisk {
  import opened Platform
  import opened Uf2Format

  const NUM_FAT_BLOCKS := 8000
  const NUM_INFO := 3
  const UF2_FIRST_SECTOR := NUM_INFO + 1
  const RESERVED_SECTORS := 1
  const ROOT_DIR_SECTORS := 4
  const SECTORS_PER_FAT := (NUM_FAT_BLOCKS * 2 + 511) / 512
  const START_FAT0 := RESERVED_SECTORS
  const START_FAT1 := START_FAT0 + SECTORS_PER_FAT
  const START_ROOTDIR := START_FAT1 + SECTORS_PER_FAT
  const START_CLUSTERS := START_ROOTDIR + ROOT_DIR_SECTORS
  const UF2_PAYLOAD := 256

  const VOLUME_LABEL := "BLUEPILL"
  const INFO_TEXT := "UF2 Bootloader v" + "1.1.3" + " SFA\r\n" + "Model: " + "STM32BLUEPILL" + "\r\n" +
    "Board-ID: " + "STM32F103C8-BluePill-v0" + "\r\n"
  const INDEX_TEXT :=
    "<!doctype html>\n" + "<html><body><script>\n" + "location.replace(\"https://visualbluepill.github.io\");\n" +
    "</script></body></html>\n"

  /** Flash of any size that is whole UF2 payloads and whose UF2 file fits the file allocation table. */
  predicate FitsFat(flash: seq<Byte>) {
    |flash| % UF2_PAYLOAD == 0 && 0 < |flash| && UF2_FIRST_SECTOR + |flash| / UF2_PAYLOAD <= 256 * SECTORS_PER_FAT
  }

  /** UF2_SECTORS: one sector per payload. */
  function Uf2Sectors(flash: seq<Byte>): nat {
    2 * |flash| / 512
  }

  /** UF2_LAST_SECTOR, in the numbering of the table. */
  function LastSector(flash: seq<Byte>): int {
    UF2_FIRST_SECTOR + Uf2Sectors(flash) - 1
  }

  function Ascii(text: string): (s: seq<Byte>)
    ensures |s| == |text|
  {
    seq(|text|, i requires 0 <= i < |text| => text[i] as int % 0x100)
  }

  /** 16-bit little-endian bytes. */
  function Half(x: nat): (s: seq<Byte>)
    ensures |s| == 2
  {
    [x % 0x100, x / 0x100 % 0x100]
  }

  /** `s`, then zeros up to `len`. */
  function Padded(s: seq<Byte>, len: nat): (r: seq<Byte>)
    requires |s| <= len
    ensures |r| == len && r[..|s|] == s && forall i :: |s| <= i < len ==> r[i] == 0
  {
    s + seq(len - |s|, _ => 0)
  }

  /** padded_memcpy of a name field: spaces after the end of the text. */
  function NameField(text: string): (s: seq<Byte>)
    requires |text| <= 11
    ensures |s| == 11
  {
    Ascii(text) + seq(11 - |text|, _ => 0x20)
  }

  /** The boot block, field by field: its geometry, then the rest. */
  function BootHead(): (s: seq<Byte>)
    ensures |s| == 28
  {
    [0xeb, 0x3c, 0x90] + Ascii("UF2 UF2 ") + Half(512) + [1] + Half(RESERVED_SECTORS) + [2] +
    Half(ROOT_DIR_SECTORS * 512 / 32) + Half(NUM_FAT_BLOCKS - 2) + [0xF8] + Half(SECTORS_PER_FAT) + Half(1) + Half(1)
  }

  function BootTail(): (s: seq<Byte>)
    ensures |s| == 34
  {
    WordBytes(0) + WordBytes(0) + [0, 0, 0x29] + WordBytes(0x0042_0042) + Padded(Ascii(VOLUME_LABEL), 11) +
    Ascii("FAT16   ")
  }

  function BootBlock(): (s: seq<Byte>)
    ensures |s| == 62
  {
    BootHead() + BootTail()
  }

  function BootSector(): Sector {
    Padded(BootBlock(), 510) + [0x55, 0xaa]
  }

  /** What entry `v` of the table is set to: the reserved and single-cluster entries at the start of its first sector,
      then one chain for the UF2 file. */
  function FatEntry(flash: seq<Byte>, v: nat): (x: nat)
    requires FitsFat(flash)
    ensures x < 0x1_0000
  {
    if UF2_FIRST_SECTOR <= v <= LastSector(flash) then (if v == LastSector(flash) then 0xffff else v + 1)
    else if v == 0 then 0xfff0
    else if v < UF2_FIRST_SECTOR then 0xffff
    else 0
  }

  /** Sector `idx` of either copy of the table. */
  function FatSector(flash: seq<Byte>, idx: nat): Sector
    requires FitsFat(flash)
  {
    seq(SECTOR_SIZE, i requires 0 <= i < SECTOR_SIZE =>
      var x := FatEntry(flash, idx * 256 + i / 2); if i % 2 == 0 then x % 0x100 else x / 0x100)
  }

  /** One 32-byte directory entry. */
  function DirEntry(name: string, attrs: Byte, startCluster: nat, size: Word): (s: seq<Byte>)
    requires |name| <= 11
    ensures |s| == 32
  {
    NameField(name) + [attrs] + seq(14, _ => 0) + Half(startCluster) + WordBytes(size)
  }

  function RootDirSector(flash: seq<Byte>): Sector
    requires FitsFat(flash)
  {
    Padded(DirEntry(VOLUME_LABEL, 0x28, 0, 0) + DirEntry("INFO_UF2TXT", 0, 2, |INFO_TEXT|) +
           DirEntry("INDEX   HTM", 0, 3, |INDEX_TEXT|) + DirEntry("CURRENT UF2", 0, 4, 2 * |flash|), SECTOR_SIZE)
  }

  /** The byte offset of block `k` in flash, with C's 32-bit wrap-around. */
  function BlockOffset(k: Word): (at: Word)
    ensures at % UF2_PAYLOAD == 0
    ensures UF2_PAYLOAD * k < 0x1_0000_0000 ==> at == UF2_PAYLOAD * k
  {
    WrapBlocks(k);
    Wrap(UF2_PAYLOAD * k)
  }

  lemma WrapBlocks(k: Word)
    ensures Wrap(UF2_PAYLOAD * k) == UF2_PAYLOAD * (k % 0x100_0000)
  {
    assert k == 0x100_0000 * (k / 0x100_0000) + k % 0x100_0000;
  }

  /** The k-th block of CURRENT.UF2. */
  function FlashBlock(flash: seq<Byte>, k: Word): (b: Uf2Block)
    requires FitsFat(flash) && BlockOffset(k) < |flash|
    ensures |b.data| == DATA_SIZE
  {
    var at := BlockOffset(k);
    Uf2Block(UF2_MAGIC_START0, UF2_MAGIC_START1, 0, FLASH_BASE + at, UF2_PAYLOAD, k, |flash| / UF2_PAYLOAD, 0,
             Padded(flash[at..at + UF2_PAYLOAD], DATA_SIZE), UF2_MAGIC_END)
  }

  /** read_block. */
  function ReadBlock(flash: seq<Byte>, blockNo: Word): Sector
    requires FitsFat(flash)
  {
    if blockNo == 0 then BootSector()
    else if blockNo < START_ROOTDIR then
      var idx := blockNo - START_FAT0;
      FatSector(flash, if idx >= SECTORS_PER_FAT then idx - SECTORS_PER_FAT else idx)
    else if blockNo < START_CLUSTERS then
      if blockNo == START_ROOTDIR then RootDirSector(flash) else Padded([], SECTOR_SIZE)
    else
      var idx := blockNo - START_CLUSTERS;
      if idx == 0 then Padded(Ascii(INFO_TEXT), SECTOR_SIZE)
      else if idx == 1 then Padded(Ascii(INDEX_TEXT), SECTOR_SIZE)
      else
        var k := idx - (NUM_INFO - 1);
        if BlockOffset(k) < |flash| then Encode(FlashBlock(flash, k)) else Padded([], SECTOR_SIZE)
  }

  // ---------- the volume as a FAT driver sees it ----------

  function HalfAt(s: seq<Byte>, at: nat): (x: nat)
    requires at + 2 <= |s|
    ensures x < 0x1_0000
  {
    s[at] as int + 0x100 * s[at + 1] as int
  }

  /** First data sector as the boot block's own fields give it. */
  function FirstDataSector(boot: Sector): nat {
    HalfAt(boot, 14) + boot[16] as int * HalfAt(boot, 22) + HalfAt(boot, 17) * 32 / 512
  }

  /** Size of the volume as the boot block gives it. */
  function TotalSectors(boot: Sector): nat {
    HalfAt(boot, 19)
  }

  /** Entry `c` of the first table, read from the volume. */
  function NextCluster(flash: seq<Byte>, c: nat): (next: nat)
    requires FitsFat(flash) && c < 0x1_0000
    ensures next < 0x1_0000
  {
    HalfAt(ReadBlock(flash, START_FAT0 + c / 256), 2 * (c % 256))
  }

  /** Last cluster of a file (FAT16). */
  predicate EndOfChain(x: nat) {
    x >= 0xfff8
  }

  /** The clusters met by following the table from `c` for at most `fuel` steps. */
  function Follow(flash: seq<Byte>, c: nat, fuel: nat): seq<nat>
    requires FitsFat(flash) && c < 0x1_0000
    decreases fuel
  {
    if fuel == 0 then []
    else if EndOfChain(NextCluster(flash, c)) then [c]
    else [c] + Follow(flash, NextCluster(flash, c), fuel - 1)
  }

  /** Sector that holds cluster `c`, for a volume whose first data sector is `first`. */
  function ClusterSector(first: nat, c: nat): int {
    first + (c - 2)
  }

  /** Directory entry `i` of the root directory. */
  function Entry(flash: seq<Byte>, i: nat): (e: seq<Byte>)
    requires FitsFat(flash) && i < 16
    ensures |e| == 32
  {
    ReadBlock(flash, START_ROOTDIR)[32 * i..32 * (i + 1)]
  }

  lemma HeadBytes()
    ensures BootHead() ==
      [0xEB, 0x3C, 0x90, 0x55, 0x46, 0x32, 0x20, 0x55, 0x46, 0x32, 0x20, 0, 2, 1, 1, 0, 2, 64, 0, 0x3E, 0x1F, 0xF8, 32,
       0, 1, 0, 1, 0]
  {
    assert Ascii("UF2 UF2 ") == [0x55, 0x46, 0x32, 0x20, 0x55, 0x46, 0x32, 0x20];
  }

  lemma TailBytes()
    ensures BootTail() ==
      [0, 0, 0, 0, 0, 0, 0, 0, 0, 0, 0x29, 0x42, 0, 0x42, 0, 0x42, 0x4C, 0x55, 0x45, 0x50, 0x49, 0x4C, 0x4C, 0, 0, 0,
       0x46, 0x41, 0x54, 0x31, 0x36, 0x20, 0x20, 0x20]
  {
    hide Padded, WordBytes, Ascii;
    LabelBytes();
    assert WordBytes(0) == [0, 0, 0, 0] && WordBytes(0x0042_0042) == [0x42, 0, 0x42, 0];
  }

  lemma LabelBytes()
    ensures Padded(Ascii(VOLUME_LABEL), 11) == [0x42, 0x4C, 0x55, 0x45, 0x50, 0x49, 0x4C, 0x4C, 0, 0, 0]
    ensures Ascii("FAT16   ") == [0x46, 0x41, 0x54, 0x31, 0x36, 0x20, 0x20, 0x20]
    ensures WordBytes(0) == [0, 0, 0, 0] && WordBytes(0x0042_0042) == [0x42, 0, 0x42, 0]
  {
    assert Ascii(VOLUME_LABEL) == [0x42, 0x4C, 0x55, 0x45, 0x50, 0x49, 0x4C, 0x4C];
  }

  /** The boot block byte for byte: jump and name, 512 bytes to a sector, one sector to a cluster, one reserved, two
      tables, 64 root entries, 7998 sectors, the media byte, 32 sectors to a table; no hidden sectors, the serial
      number, label and file system; zeros, and the signature at the end. */
  lemma BootBytes()
    ensures BootSector()[..28] ==
      [0xEB, 0x3C, 0x90, 0x55, 0x46, 0x32, 0x20, 0x55, 0x46, 0x32, 0x20, 0, 2, 1, 1, 0, 2, 64, 0, 0x3E, 0x1F, 0xF8, 32,
       0, 1, 0, 1, 0]
    ensures BootSector()[28..62] ==
      [0, 0, 0, 0, 0, 0, 0, 0, 0, 0, 0x29, 0x42, 0, 0x42, 0, 0x42, 0x4C, 0x55, 0x45, 0x50, 0x49, 0x4C, 0x4C, 0, 0, 0,
       0x46, 0x41, 0x54, 0x31, 0x36, 0x20, 0x20, 0x20]
    ensures (forall i :: 62 <= i < 510 ==> BootSector()[i] == 0) && BootSector()[510..] == [0x55, 0xAA]
  {
    hide BootHead, BootTail;
    HeadBytes();
    TailBytes();
    BootParts();
  }

  lemma BootParts()
    ensures BootSector()[..28] == BootHead() && BootSector()[28..62] == BootTail()
    ensures (forall i :: 62 <= i < 510 ==> BootSector()[i] == 0) && BootSector()[510..] == [0x55, 0xAA]
  {
    hide BootHead, BootTail;
    assert BootSector()[..62] == BootBlock();
  }

  /** The boot block describes the layout the sectors follow. */
  lemma BootGeometry()
    ensures FirstDataSector(BootSector()) == START_CLUSTERS && HalfAt(BootSector(), 11) == SECTOR_SIZE
    ensures TotalSectors(BootSector()) == NUM_FAT_BLOCKS - 2
  {
    hide BootSector;
    BootBytes();
    var s := BootSector();
    var head := s[..28];
    assert forall i :: 0 <= i < 28 ==> s[i] == head[i];
    assert head[11] == 0 && head[12] == 2 && head[14] == 1 && head[15] == 0 && head[16] == 2;
    assert head[17] == 64 && head[18] == 0 && head[19] == 0x3E && head[20] == 0x1F && head[22] == 32 && head[23] == 0;
  }

  lemma NextIsEntry(flash: seq<Byte>, c: nat)
    requires FitsFat(flash) && c < 256 * SECTORS_PER_FAT
    ensures NextCluster(flash, c) == FatEntry(flash, c)
  {
  }

  /** Both copies of the table are the same. */
  lemma CopiesAgree(flash: seq<Byte>, i: nat)
    requires FitsFat(flash) && i < SECTORS_PER_FAT
    ensures ReadBlock(flash, START_FAT0 + i) == ReadBlock(flash, START_FAT1 + i)
  {
  }

  /** From its k-th cluster on, the UF2 file is exactly the remaining clusters in order, whatever fuel is left over. */
  lemma {:induction false} ChainFrom(flash: seq<Byte>, k: nat, spare: nat)
    requires FitsFat(flash) && k < Uf2Sectors(flash)
    ensures Follow(flash, UF2_FIRST_SECTOR + k, Uf2Sectors(flash) - k + spare) ==
      seq(Uf2Sectors(flash) - k, i => UF2_FIRST_SECTOR + k + i)
    decreases Uf2Sectors(flash) - k
  {
    hide NextCluster;
    var n := Uf2Sectors(flash) - k;
    NextIsEntry(flash, UF2_FIRST_SECTOR + k);
    if n > 1 {
      ChainFrom(flash, k + 1, spare);
      assert seq(n, i => UF2_FIRST_SECTOR + k + i) ==
          [UF2_FIRST_SECTOR + k] + seq(n - 1, i => UF2_FIRST_SECTOR + (k + 1) + i);
    } else {
      assert seq(n, i => UF2_FIRST_SECTOR + k + i) == [UF2_FIRST_SECTOR + k];
    }
  }

  lemma RootEntries(flash: seq<Byte>)
    requires FitsFat(flash)
    ensures Entry(flash, 0) == DirEntry(VOLUME_LABEL, 0x28, 0, 0)
    ensures forall i, j :: 4 <= i < 16 && 0 <= j < 32 ==> Entry(flash, i)[j] == 0
    ensures Entry(flash, 1) == DirEntry("INFO_UF2TXT", 0, 2, |INFO_TEXT|)
    ensures Entry(flash, 2) == DirEntry("INDEX   HTM", 0, 3, |INDEX_TEXT|)
    ensures Entry(flash, 3) == DirEntry("CURRENT UF2", 0, 4, 2 * |flash|)
  {
    hide DirEntry, Padded;
    FourEntries(DirEntry(VOLUME_LABEL, 0x28, 0, 0), DirEntry("INFO_UF2TXT", 0, 2, |INFO_TEXT|),
      DirEntry("INDEX   HTM", 0, 3, |INDEX_TEXT|), DirEntry("CURRENT UF2", 0, 4, 2 * |flash|));
  }

  lemma FourEntries(a: seq<Byte>, b: seq<Byte>, c: seq<Byte>, d: seq<Byte>)
    requires |a| == |b| == |c| == |d| == 32
    ensures
      var s := Padded(a + b + c + d, SECTOR_SIZE);
      && s[0..32] == a && s[32..64] == b && s[64..96] == c && s[96..128] == d
      && forall i :: 128 <= i < SECTOR_SIZE ==> s[i] == 0
  {
    var all, s := a + b + c + d, Padded(a + b + c + d, SECTOR_SIZE);
    assert s[..128] == all;
  }

  /** The root directory holds the volume label, the three files as plain ones, without times, and nothing else. */
  lemma Directory(flash: seq<Byte>, i: nat)
    requires FitsFat(flash) && i < 16
    ensures
      var e := Entry(flash, i);
      && (i == 0 ==> e[..8] == Ascii(VOLUME_LABEL) && e[8..11] == [0x20, 0x20, 0x20] && e[11] == 0x28)
      && (1 <= i <= 3 ==> e[11] == 0 && forall j :: 12 <= j < 26 ==> e[j] == 0)
      && (4 <= i ==> forall j :: 0 <= j < 32 ==> e[j] == 0)
  {
    hide DirEntry;
    RootEntries(flash);
    EntryPlain("INFO_UF2TXT", 0, 2, |INFO_TEXT|);
    EntryPlain("INDEX   HTM", 0, 3, |INDEX_TEXT|);
    EntryPlain("CURRENT UF2", 0, 4, 2 * |flash|);
    EntryPlain(VOLUME_LABEL, 0x28, 0, 0);
    LabelEntry();
  }

  lemma EntryPlain(name: string, attrs: Byte, start: nat, size: Word)
    requires |name| <= 11
    ensures
      var e := DirEntry(name, attrs, start, size);
      e[..11] == NameField(name) && e[11] == attrs && forall j :: 12 <= j < 26 ==> e[j] == 0
  {
  }

  lemma LabelEntry()
    ensures NameField(VOLUME_LABEL)[..8] == Ascii(VOLUME_LABEL) && NameField(VOLUME_LABEL)[8..] == [0x20, 0x20, 0x20]
  {
  }

  /** Outside the files' chains the table is as FAT16 has it: the reserved entries first, and every entry behind the UF2
      file free. */
  lemma OtherClusters(flash: seq<Byte>, c: nat)
    requires FitsFat(flash) && c < 256 * SECTORS_PER_FAT && (c < 2 || UF2_FIRST_SECTOR + |flash| / 256 <= c)
    ensures NextCluster(flash, c) == if c == 0 then 0xfff0 else if c == 1 then 0xffff else 0
  {
    hide NextCluster;
    NextIsEntry(flash, c);
  }

  /** What belongs to no file reads as zeros: the rest of the root directory, and the sectors behind the UF2 file, as
      far as the block's byte offset does not wrap. */
  lemma UnusedSectors(flash: seq<Byte>, blockNo: Word)
    requires FitsFat(flash)
    requires
      || START_ROOTDIR < blockNo < START_CLUSTERS
      || START_CLUSTERS + NUM_INFO - 1 + |flash| / 256 <= blockNo < 0x100_0000
    ensures forall i :: 0 <= i < SECTOR_SIZE ==> ReadBlock(flash, blockNo)[i] == 0
  {
    hide RootDirSector;
  }

  lemma EntryFields(name: string, attrs: Byte, start: nat, size: Word)
    requires |name| <= 11 && start < 0x1_0000
    ensures HalfAt(DirEntry(name, attrs, start, size), 26) == start
      && WordAt(DirEntry(name, attrs, start, size), 28) == size
  {
    var e := DirEntry(name, attrs, start, size);
    assert e[26..28] == Half(start);
    FieldAt(e, 28, size);
  }

  /** The volume is well formed: from the start cluster in the directory entry of CURRENT.UF2, the table visits exactly
      size / 512 consecutive clusters, across table sectors, and ends, however long one keeps following. */
  lemma CurrentUf2Chain(flash: seq<Byte>, spare: nat)
    requires FitsFat(flash)
    ensures
      var e := Entry(flash, 3);
      var clusters := WordAt(e, 28) / 512;
      && WordAt(e, 28) == 2 * |flash|
      && Follow(flash, HalfAt(e, 26), clusters + spare) == seq(clusters, i => HalfAt(e, 26) + i)
  {
    hide Follow, NextCluster, Entry, DirEntry, HalfAt, WordAt;
    RootEntries(flash);
    EntryFields("CURRENT UF2", 0, 4, 2 * |flash|);
    ChainFrom(flash, 0, spare);
    assert seq(Uf2Sectors(flash), i => UF2_FIRST_SECTOR + 0 + i) == seq(Uf2Sectors(flash), i => 4 + i);
  }

  /** Sector of the k-th cluster of the UF2 file. */
  function FileSectorNo(k: nat): int {
    ClusterSector(FirstDataSector(BootSector()), UF2_FIRST_SECTOR + k)
  }

  /** The file's clusters all lie inside the volume exactly if flash has at most 7927 payloads; the table takes more. */
  lemma InsideVolumeIff(flash: seq<Byte>)
    requires FitsFat(flash)
    ensures (forall k: nat :: k < Uf2Sectors(flash) ==> FileSectorNo(k) < TotalSectors(BootSector()))
       <==> Uf2Sectors(flash) <= 7927
  {
    hide BootSector, FirstDataSector, TotalSectors;
    BootGeometry();
    assert FileSectorNo(Uf2Sectors(flash) - 1) == START_CLUSTERS + 2 + Uf2Sectors(flash) - 1;
  }

  lemma SingleCluster(flash: seq<Byte>, c: nat, fuel: nat)
    requires FitsFat(flash) && 1 <= c < UF2_FIRST_SECTOR && fuel > 0
    ensures Follow(flash, c, fuel) == [c]
  {
    hide NextCluster;
    NextIsEntry(flash, c);
  }

  /** The two text files are one cluster each, outside the UF2 file's chain. */
  lemma TextFileChains(flash: seq<Byte>, file: nat, fuel: nat)
    requires FitsFat(flash) && 1 <= file <= 2 && fuel > 0
    ensures
      var start := HalfAt(Entry(flash, file), 26);
      start == file + 1 && start < HalfAt(Entry(flash, 3), 26) && Follow(flash, start, fuel) == [start]
  {
    hide Follow, DirEntry, Entry, HalfAt;
    RootEntries(flash);
    EntryFields("INFO_UF2TXT", 0, 2, |INFO_TEXT|);
    EntryFields("INDEX   HTM", 0, 3, |INDEX_TEXT|);
    EntryFields("CURRENT UF2", 0, 4, 2 * |flash|);
    SingleCluster(flash, file + 1, fuel);
  }

  /** A text file as a driver reads it: the entry has its name, and the sector that the boot block's geometry gives for
      its start cluster begins with its text, as many bytes as the entry's size says. */
  lemma TextFileContents(flash: seq<Byte>, file: nat)
    requires FitsFat(flash) && 1 <= file <= 2
    ensures
      var e := Entry(flash, file);
      var sector := ReadBlock(flash, ClusterSector(FirstDataSector(BootSector()), HalfAt(e, 26)));
      var size := WordAt(e, 28);
      && e[..11] == Ascii(if file == 1 then "INFO_UF2TXT" else "INDEX   HTM")
      && size <= SECTOR_SIZE && sector[..size] == Ascii(if file == 1 then INFO_TEXT else INDEX_TEXT)
      && sector[..4] == if file == 1 then [0x55, 0x46, 0x32, 0x20] else [0x3C, 0x21, 0x64, 0x6F]
  {
    hide BootSector, FirstDataSector, DirEntry, Entry, HalfAt, WordAt;
    BootGeometry();
    RootEntries(flash);
    EntryFields("INFO_UF2TXT", 0, 2, |INFO_TEXT|);
    EntryFields("INDEX   HTM", 0, 3, |INDEX_TEXT|);
    EntryName("INFO_UF2TXT", 0, 2, |INFO_TEXT|);
    EntryName("INDEX   HTM", 0, 3, |INDEX_TEXT|);
    TextStarts();
  }

  lemma EntryName(name: string, attrs: Byte, start: nat, size: Word)
    requires |name| == 11
    ensures DirEntry(name, attrs, start, size)[..11] == Ascii(name)
  {
    assert NameField(name) == Ascii(name);
  }

  lemma TextStarts()
    ensures 4 <= |INFO_TEXT| <= SECTOR_SIZE && 4 <= |INDEX_TEXT| <= SECTOR_SIZE
    ensures Padded(Ascii(INFO_TEXT), SECTOR_SIZE)[..4] == [0x55, 0x46, 0x32, 0x20]
    ensures Padded(Ascii(INDEX_TEXT), SECTOR_SIZE)[..4] == [0x3C, 0x21, 0x64, 0x6F]
  {
    hide Ascii, Padded;
    FirstBytes(INFO_TEXT);
    FirstBytes(INDEX_TEXT);
    FirstLetters();
  }

  lemma FirstLetters()
    ensures INFO_TEXT[0] == 'U' && INFO_TEXT[1] == 'F' && INFO_TEXT[2] == '2' && INFO_TEXT[3] == ' '
    ensures INDEX_TEXT[0] == '<' && INDEX_TEXT[1] == '!' && INDEX_TEXT[2] == 'd' && INDEX_TEXT[3] == 'o'
  {
  }

  lemma FirstBytes(text: string)
    requires 4 <= |text| <= SECTOR_SIZE
    ensures
      var code := (i: nat) requires i < 4 => text[i] as int % 0x100;
      Padded(Ascii(text), SECTOR_SIZE)[..4] == [code(0), code(1), code(2), code(3)]
  {
    var s := Padded(Ascii(text), SECTOR_SIZE);
    assert s[..|text|] == Ascii(text);
    assert forall i :: 0 <= i < 4 ==> s[i] == s[..|text|][i] == Ascii(text)[i];
  }

  /** The sector of the file's k-th cluster, located with the boot block's geometry, is UF2 block k: the k-th 256 bytes
      of flash, addressed to where they are. */
  lemma ClusterIsBlock(flash: seq<Byte>, k: nat)
    requires FitsFat(flash) && k < Uf2Sectors(flash)
    ensures
      var s := ReadBlock(flash, ClusterSector(FirstDataSector(BootSector()), UF2_FIRST_SECTOR + k));
      && !Foreign(s) && WordAt(s, 8) == 0
      && WordAt(s, 12) == 0x0800_0000 + 256 * k && WordAt(s, 16) == 256
      && WordAt(s, 20) == k && WordAt(s, 24) == |flash| / 256 && WordAt(s, 28) == 0
      && s[32..288] == flash[256 * k..256 * (k + 1)] && forall i :: 288 <= i < 508 ==> s[i] == 0
  {
    hide BootSector, FirstDataSector, Encode, Foreign, WordAt;
    BootGeometry();
    var b := FlashBlock(flash, k);
    DecodeEncode(b);
    ForeignIff(Encode(b));
    assert Decode(Encode(b)).data[..256] == Encode(b)[32..288];
    forall i | 288 <= i < 508
      ensures Encode(b)[i] == 0
    {
      assert Decode(Encode(b)).data[i - 32] == Encode(b)[i];
    }
  }

  // ---------- filling a sector buffer ----------

  /** memcpy into a buffer. */
  method CopyInto(data: array<Byte>, at: nat, src: seq<Byte>)
    requires at + |src| <= data.Length
    modifies data
    ensures data[..] == Overlay(old(data[..]), at, src)
  {
    for i := 0 to |src|
      invariant data[..] == Overlay(old(data[..]), at, src[..i])
    {
      data[at + i] := src[i];
    }
    assert src[..|src|] == src;
  }

  lemma FatBytes(flash: seq<Byte>, idx: nat, i: nat)
    requires FitsFat(flash) && i < 256
    ensures FatSector(flash, idx)[2 * i] == FatEntry(flash, idx * 256 + i) % 0x100
    ensures FatSector(flash, idx)[2 * i + 1] == FatEntry(flash, idx * 256 + i) / 0x100
  {
    assert 2 * i / 2 == i && 2 * i % 2 == 0 && (2 * i + 1) / 2 == i && (2 * i + 1) % 2 == 1;
  }

  /** The body of the table sectors: media bytes in the first one, then the UF2 file's links. */
  method FillFatSector(size: nat, idx: nat, data: array<Byte>, ghost flash: seq<Byte>)
    requires FitsFat(flash) && size == |flash| && data.Length == SECTOR_SIZE
    requires forall i :: 0 <= i < SECTOR_SIZE ==> data[i] == 0
    modifies data
    ensures data[..] == FatSector(flash, idx)
  {
    hide FatSector;
    var last := UF2_FIRST_SECTOR + 2 * size / 512 - 1;
    if idx == 0 {
      data[0] := 0xf0;
      for i := 1 to NUM_INFO * 2 + 4
        invariant data[0] == 0xf0
        invariant forall j :: 1 <= j < SECTOR_SIZE ==> data[j] == if j < i then 0xff else 0
      {
        data[i] := 0xff;
      }
    }
    ghost var before := data[..];
    for i := 0 to 256
      invariant forall j :: 0 <= j < 2 * i ==> data[j] == FatSector(flash, idx)[j]
      invariant forall j :: 2 * i <= j < SECTOR_SIZE ==> data[j] == before[j]
    {
      var v := idx * 256 + i;
      FatBytes(flash, idx, i);
      if UF2_FIRST_SECTOR <= v <= last {
        var x := if v == last then 0xffff else v + 1;
        data[2 * i], data[2 * i + 1] := x % 0x100, x / 0x100;
      }
    }
  }

  /** read_block, in place. */
  method FillSector(flash: array<Byte>, blockNo: Word, data: array<Byte>)
    requires FitsFat(flash[..]) && data.Length == SECTOR_SIZE && data != flash
    modifies data
    ensures data[..] == ReadBlock(flash[..], blockNo)
  {
    hide BootBlock, RootDirSector, Encode, FatSector;
    ghost var f := flash[..];
    forall i | 0 <= i < SECTOR_SIZE { data[i] := 0; }
    assert flash[..] == f;
    if blockNo == 0 {
      CopyInto(data, 0, BootBlock());
      data[510], data[511] := 0x55, 0xaa;
      assert data[..] == BootSector();
    } else if blockNo < START_ROOTDIR {
      var idx := blockNo - START_FAT0;
      if idx >= SECTORS_PER_FAT { idx := idx - SECTORS_PER_FAT; }
      FillFatSector(flash.Length, idx, data, f);
    } else if blockNo < START_CLUSTERS {
      if blockNo == START_ROOTDIR {
        CopyInto(data, 0, RootDirSector(flash[..]));
      }
    } else {
      var idx := blockNo - START_CLUSTERS;
      if idx == 0 {
        CopyInto(data, 0, Ascii(INFO_TEXT));
      } else if idx == 1 {
        CopyInto(data, 0, Ascii(INDEX_TEXT));
      } else {
        var k := idx - (NUM_INFO - 1);
        if BlockOffset(k) < flash.Length {
          CopyInto(data, 0, Encode(FlashBlock(flash[..], k)));
        }
      }
    }
  }
}
