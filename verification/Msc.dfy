// msc.c: the read side of the Mass Storage Bulk-Only Transport, serving the virtual disk.

module Msc {
  import opened Platform
  import opened Uf2Format
  import opened VirtualDisk

  const PACKET_SIZE := 64
  const CBW_SIZE := 31
  const CSW_SIZE := 13
  const CSW_SIGNATURE := 0x5342_5355
  const CSW_STATUS_SUCCESS := 0
  const CSW_STATUS_FAILED := 1

  /** How scsi_command treats an operation code; the write side is not part of this model. */
  datatype Kind = Read6 | Read10 | Table | Plain | Unknown | WriteSide

  function KindOf(op: Byte): Kind {
    match op
    case 0x08 => Read6
    case 0x28 => Read10
    case 0x03 | 0x12 | 0x1A | 0x23 | 0x25 => Table
    case 0x00 | 0x1D | 0x1E => Plain
    case 0x04 | 0x0A | 0x2A => WriteSide
    case _ => Unknown
  }

  type Cbw = c: seq<Byte> | |c| == CBW_SIZE witness seq(CBW_SIZE, _ => 0)

  /** What a table-driven command (inquiry, sense, capacity) puts in the buffer, and the residue it reports. */
  datatype Reply = Reply(data: seq<Byte>, residue: Word)

  /** usb_msc_trans. */
  datatype Trans = Trans(cbwCnt: nat, cbw: Cbw, bytesToWrite: nat, byteCount: nat, lbaStart: Word, blockCount: nat,
                         currentBlock: nat, msdBuf: Sector, cswValid: bool, cswSent: nat,
                         cswSignature: Word, cswTag: Word, cswResidue: Word, cswStatus: Byte)

  /** One callback's outcome: state, packets written to the IN endpoint, and sectors read from the disk. */
  datatype Outcome = Outcome(t: Trans, packets: seq<seq<Byte>>, fetched: seq<Word>)

  /** CBWCB[i]. */
  function Cb(t: Trans, i: nat): Byte
    requires i < 16
  {
    t.cbw[15 + i]
  }

  function CswBytes(t: Trans): (s: seq<Byte>)
    ensures |s| == CSW_SIZE
  {
    WordBytes(t.cswSignature) + WordBytes(t.cswTag) + WordBytes(t.cswResidue) + [t.cswStatus]
  }

  /** scsi_command on a complete CBW. */
  function CommandStart(t0: Trans, reply: Reply): Trans
    requires |reply.data| <= SECTOR_SIZE
  {
    var t := t0.(cswSent := 0, cswSignature := CSW_SIGNATURE, cswTag := WordAt(t0.cbw, 4), cswResidue := 0,
                 cswStatus := CSW_STATUS_SUCCESS, bytesToWrite := 0, byteCount := 0);
    match KindOf(Cb(t, 0))
    case Read6 =>
      t.(lbaStart := Cb(t, 2) * 0x100 + Cb(t, 3), blockCount := Cb(t, 4), currentBlock := 0,
         bytesToWrite := Cb(t, 4) * 512)
    case Read10 =>
      var count := Cb(t, 7) * 0x100 + Cb(t, 8);
      t.(lbaStart := Cb(t, 2) * 0x100_0000 + Cb(t, 3) * 0x1_0000 + Cb(t, 4) * 0x100 + Cb(t, 5),
         blockCount := count, bytesToWrite := count * 512)
    case Table =>
      t.(msdBuf := Overlay(t.msdBuf, 0, reply.data), bytesToWrite := |reply.data|, cswResidue := reply.residue)
    case Unknown => t.(cswStatus := CSW_STATUS_FAILED)
    case _ => t
  }

  /** scsi_command when the status is due: only an unknown command still does anything. */
  function CommandEnd(t: Trans): Trans {
    if KindOf(Cb(t, 0)).Unknown? then t.(bytesToWrite := 0, cswStatus := CSW_STATUS_FAILED) else t
  }

  /** The next data packet: fetches a sector at each sector boundary of a block transfer. */
  function DataIn(t: Trans, disk: seq<Byte>): Outcome
    requires FitsFat(disk) && t.byteCount < t.bytesToWrite
  {
    var fetch := t.blockCount > 0 && t.byteCount % 512 == 0;
    var lba := Wrap(t.lbaStart + t.currentBlock);
    var t1 := if fetch then t.(msdBuf := ReadBlock(disk, lba), currentBlock := t.currentBlock + 1) else t;
    var at := t.byteCount % 512;
    var left := t.bytesToWrite - t.byteCount;
    var len := if left < PACKET_SIZE then left else PACKET_SIZE;
    var end := if at + len > SECTOR_SIZE then SECTOR_SIZE else at + len;
    Outcome(t1.(byteCount := t.byteCount + len), [t1.msdBuf[at..end]], if fetch then [lba] else [])
  }

  /** The state in which the status is sent: the block counter rewound, the status itself settled. */
  function StatusReady(t0: Trans): (t: Trans)
    ensures t.cswSent == t0.cswSent
  {
    var t1 := if t0.blockCount > 0 && t0.currentBlock == t0.blockCount then t0.(currentBlock := 0) else t0;
    if !t1.cswValid then CommandEnd(t1).(cswValid := true) else t1
  }

  /** The status packet; after it has gone, the return to idle (transmit callback only). */
  function StatusIn(t0: Trans): Outcome
    requires t0.cswSent <= CSW_SIZE
  {
    var t := StatusReady(t0);
    if t.cswSent < CSW_SIZE then Outcome(t.(cswSent := CSW_SIZE), [CswBytes(t)[t.cswSent..]], [])
    else
      Outcome(t.(lbaStart := 0xffff_ffff, blockCount := 0, currentBlock := 0, cbwCnt := 0, bytesToWrite := 0,
                 byteCount := 0, cswSent := 0, cswValid := false), [], [])
  }

  /** msc_data_tx_cb. */
  function Tx(t: Trans, disk: seq<Byte>): Outcome
    requires FitsFat(disk) && t.cswSent <= CSW_SIZE
  {
    if t.byteCount < t.bytesToWrite then DataIn(t, disk) else StatusIn(t)
  }

  /** Nothing in progress. */
  predicate Idle(t: Trans) {
    && t.cbwCnt == 0 && t.bytesToWrite == 0 && t.byteCount == 0 && t.blockCount == 0 && t.currentBlock == 0
    && !t.cswValid && t.cswSent == 0
  }

  /** msc_data_rx_cb for a packet that arrives while idle; a conforming host sends nothing else on the read side. */
  function Rx(t0: Trans, packet: seq<Byte>, reply: Reply, disk: seq<Byte>): Outcome
    requires FitsFat(disk) && |reply.data| <= SECTOR_SIZE && t0.cbwCnt == 0 && t0.cswSent == 0
  {
    var len := if |packet| < CBW_SIZE then |packet| else CBW_SIZE;
    var t1 := t0.(cbw := Overlay(t0.cbw, 0, packet[..len]), cbwCnt := len);
    var t := if len == CBW_SIZE then CommandStart(t1, reply) else t1;
    Tx(t, disk)
  }

  // ---------- one transfer ----------

  /** A transfer under way: data still due, or the status, or the final acknowledgement. */
  predicate Active(t: Trans, disk: seq<Byte>) {
    && FitsFat(disk) && t.byteCount <= t.bytesToWrite
    && (t.byteCount % PACKET_SIZE == 0 || t.byteCount == t.bytesToWrite)
    && (t.cswSent == 0 || (t.cswSent == CSW_SIZE && t.byteCount == t.bytesToWrite))
    && (t.cswSent == 0 <==> !t.cswValid)
    && (KindOf(Cb(t, 0)).Unknown? ==> t.bytesToWrite == 0 && t.cswStatus == CSW_STATUS_FAILED)
    && (t.blockCount == 0 ==> t.bytesToWrite <= SECTOR_SIZE && t.currentBlock == 0)
    && (t.blockCount > 0 && t.cswSent == 0 ==> BlocksActive(t, disk))
  }

  /** A block transfer in its data phase: the buffer holds the sector the next byte comes from, unless that is still
      to be fetched. */
  predicate BlocksActive(t: Trans, disk: seq<Byte>)
    requires FitsFat(disk)
  {
    && t.bytesToWrite == 512 * t.blockCount && t.currentBlock == (t.byteCount + 511) / 512
    && (t.byteCount % 512 != 0 ==> t.msdBuf == ReadBlock(disk, Wrap(t.lbaStart + t.byteCount / 512)))
  }

  /** Byte `p` of the data phase: of sector lba + p / 512 for a block transfer, of the buffer otherwise. */
  function DataByte(t: Trans, disk: seq<Byte>, p: nat): Byte
    requires FitsFat(disk) && (t.blockCount == 0 ==> p < SECTOR_SIZE)
  {
    if t.blockCount > 0 then ReadBlock(disk, Wrap(t.lbaStart + p / 512))[p % 512] else t.msdBuf[p]
  }

  /** The data still to be sent. */
  function DataDue(t: Trans, disk: seq<Byte>): (s: seq<Byte>)
    requires FitsFat(disk) && t.byteCount <= t.bytesToWrite && (t.blockCount == 0 ==> t.bytesToWrite <= SECTOR_SIZE)
    ensures |s| == t.bytesToWrite - t.byteCount
  {
    seq<Byte>(t.bytesToWrite - t.byteCount,
        i requires 0 <= i < t.bytesToWrite - t.byteCount => DataByte(t, disk, t.byteCount + i))
  }

  /** The sectors still to be fetched. */
  function FetchesDue(t: Trans): seq<Word>
    requires t.currentBlock <= t.blockCount
  {
    seq<Word>(t.blockCount - t.currentBlock,
        i requires 0 <= i < t.blockCount - t.currentBlock => Wrap(t.lbaStart + t.currentBlock + i))
  }

  function Flatten(ps: seq<seq<Byte>>): seq<Byte> {
    if ps == [] then [] else ps[0] + Flatten(ps[1..])
  }

  /** How many bytes the next data packet carries. */
  function PacketLen(t: Trans): nat
    requires t.byteCount <= t.bytesToWrite
  {
    if t.bytesToWrite - t.byteCount < PACKET_SIZE then t.bytesToWrite - t.byteCount else PACKET_SIZE
  }

  lemma SplitAt512(q: nat, x: nat)
    requires x < 512
    ensures (512 * q + x) / 512 == q && (512 * q + x) % 512 == x
  {
  }

  /** A packet starting at a multiple of 64 stays in one sector. */
  lemma PacketInSector(b: nat, len: nat)
    requires b % PACKET_SIZE == 0 && len <= PACKET_SIZE
    ensures b % 512 + len <= 512
    ensures forall p :: b <= p < b + len ==> p / 512 == b / 512 && p % 512 == b % 512 + (p - b)
  {
    var q, r, m := b / 512, b % 512, b / PACKET_SIZE;
    assert r == PACKET_SIZE * (m - 8 * q);
    forall p | b <= p < b + len
      ensures p / 512 == q && p % 512 == r + (p - b)
    {
      SplitAt512(q, r + (p - b));
    }
  }

  /** A whole sector of packets later, the next one is due. */
  lemma NextSector(b: nat, len: nat)
    requires b % PACKET_SIZE == 0 && 0 < len <= PACKET_SIZE
    ensures (b + len + 511) / 512 == b / 512 + 1
    ensures (b + 511) / 512 == if b % 512 == 0 then b / 512 else b / 512 + 1
    ensures (b + len) % 512 != 0 ==> (b + len) / 512 == b / 512
  {
    PacketInSector(b, len);
    var q, r := b / 512, b % 512;
    SplitAt512(q + 1, r + len - 1);
    if r == 0 {
      SplitAt512(q, 511);
    } else {
      SplitAt512(q + 1, r - 1);
    }
    if r + len < 512 {
      SplitAt512(q, r + len);
    } else {
      SplitAt512(q + 1, 0);
    }
  }

  /** The data packet is the next stretch of the data due. */
  lemma DataInSends(t: Trans, disk: seq<Byte>)
    requires Active(t, disk) && t.byteCount < t.bytesToWrite
    ensures DataIn(t, disk).packets == [DataDue(t, disk)[..PacketLen(t)]]
  {
    hide ReadBlock, DataIn, Active, DataByte;
    OnePacket(t, disk);
    var o, at, len := DataIn(t, disk), t.byteCount % 512, PacketLen(t);
    forall i | 0 <= i < len
      ensures o.t.msdBuf[at + i] == DataDue(t, disk)[i]
    {
      SentByte(t, disk, i);
    }
    assert o.t.msdBuf[at..at + len] == DataDue(t, disk)[..len];
  }

  lemma OnePacket(t: Trans, disk: seq<Byte>)
    requires Active(t, disk) && t.byteCount < t.bytesToWrite
    ensures FitsFat(disk) && (t.blockCount == 0 ==> t.bytesToWrite <= SECTOR_SIZE)
      && t.byteCount % 512 + PacketLen(t) <= 512
    ensures
      var o, at := DataIn(t, disk), t.byteCount % 512;
      o.packets == [o.t.msdBuf[at..at + PacketLen(t)]]
  {
    hide ReadBlock;
    PacketInSector(t.byteCount, PacketLen(t));
  }

  lemma SentByte(t: Trans, disk: seq<Byte>, i: nat)
    requires Active(t, disk) && t.byteCount < t.bytesToWrite && i < PacketLen(t)
    ensures t.byteCount % 512 + i < 512
    ensures DataIn(t, disk).t.msdBuf[t.byteCount % 512 + i] == DataByte(t, disk, t.byteCount + i)
  {
    hide ReadBlock;
    PacketInSector(t.byteCount, PacketLen(t));
    var p := t.byteCount + i;
    assert p / 512 == t.byteCount / 512 && p % 512 == t.byteCount % 512 + i;
    if t.blockCount > 0 {
      NextSector(t.byteCount, PacketLen(t));
    }
  }

  /** After it the rest is due, unchanged. */
  lemma DataInAdvances(t: Trans, disk: seq<Byte>)
    requires Active(t, disk) && t.byteCount < t.bytesToWrite
    ensures
      var t' := DataIn(t, disk).t;
      && Active(t', disk)
      && t' == t.(byteCount := t.byteCount + PacketLen(t), msdBuf := t'.msdBuf, currentBlock := t'.currentBlock)
      && (t.blockCount == 0 ==> t'.msdBuf == t.msdBuf)
      && DataDue(t', disk) == DataDue(t, disk)[PacketLen(t)..]
  {
    hide ReadBlock, DataIn, DataDue, Active;
    DataInStays(t, disk);
    DueAfter(t, DataIn(t, disk).t, disk, PacketLen(t));
  }

  lemma DataInStays(t: Trans, disk: seq<Byte>)
    requires Active(t, disk) && t.byteCount < t.bytesToWrite
    ensures FitsFat(disk) && (t.blockCount == 0 ==> t.bytesToWrite <= SECTOR_SIZE)
    ensures
      var t' := DataIn(t, disk).t;
      && Active(t', disk)
      && t' == t.(byteCount := t.byteCount + PacketLen(t), msdBuf := t'.msdBuf, currentBlock := t'.currentBlock)
      && (t.blockCount == 0 ==> t'.msdBuf == t.msdBuf)
  {
    hide ReadBlock;
    NextSector(t.byteCount, PacketLen(t));
    SixtyFours(t);
    if t.blockCount == 0 {
      assert t.byteCount < 512;
    }
  }

  lemma DueAfter(t: Trans, t': Trans, disk: seq<Byte>, len: nat)
    requires FitsFat(disk) && t.byteCount + len <= t.bytesToWrite
      && (t.blockCount == 0 ==> t.bytesToWrite <= SECTOR_SIZE)
    requires t' == t.(byteCount := t.byteCount + len, msdBuf := t'.msdBuf, currentBlock := t'.currentBlock)
    requires t.blockCount == 0 ==> t'.msdBuf == t.msdBuf
    ensures DataDue(t', disk) == DataDue(t, disk)[len..]
  {
    hide ReadBlock;
    forall i | 0 <= i < t'.bytesToWrite - t'.byteCount
      ensures DataDue(t', disk)[i] == DataDue(t, disk)[len..][i]
    {
      assert DataByte(t', disk, t'.byteCount + i) == DataByte(t, disk, t.byteCount + (len + i));
    }
  }

  lemma SixtyFours(t: Trans)
    requires t.byteCount <= t.bytesToWrite && t.byteCount % PACKET_SIZE == 0
    ensures (t.byteCount + PacketLen(t)) % PACKET_SIZE == 0 || t.byteCount + PacketLen(t) == t.bytesToWrite
  {
  }

  /** Each sector is fetched when its first packet is sent, and then no more. */
  lemma DataInFetches(t: Trans, disk: seq<Byte>)
    requires Active(t, disk) && t.byteCount < t.bytesToWrite
    ensures
      var o := DataIn(t, disk);
      t.currentBlock <= t.blockCount && o.t.currentBlock <= o.t.blockCount
      && o.fetched + FetchesDue(o.t) == FetchesDue(t)
  {
    hide ReadBlock, FetchesDue, Active, PacketLen;
    FetchPlace(t, disk);
    FetchesLeft(t, DataIn(t, disk).t);
  }

  lemma FetchPlace(t: Trans, disk: seq<Byte>)
    requires Active(t, disk) && t.byteCount < t.bytesToWrite
    ensures FitsFat(disk) && t.currentBlock <= t.blockCount && (t.blockCount == 0 ==> t.currentBlock == 0)
    ensures t.blockCount > 0 && t.byteCount % 512 == 0 ==> t.currentBlock < t.blockCount
  {
    hide ReadBlock;
    if t.blockCount > 0 {
      NextSector(t.byteCount, PacketLen(t));
      BlocksLeft(t.byteCount, t.blockCount);
    }
  }

  lemma FetchesLeft(t: Trans, t': Trans)
    requires t.currentBlock <= t'.currentBlock <= t.currentBlock + 1 && t'.currentBlock <= t.blockCount
    requires t'.lbaStart == t.lbaStart && t'.blockCount == t.blockCount
    ensures FetchesDue(t) ==
      (if t'.currentBlock > t.currentBlock then [Wrap(t.lbaStart + t.currentBlock)] else []) + FetchesDue(t')
  {
    hide Wrap;
  }

  lemma BlocksLeft(b: nat, count: nat)
    requires b < 512 * count
    ensures (b + 511) / 512 <= count && b / 512 < count
  {
  }

  /** With all data sent, the status wrapper goes out, and the transfer is complete but for its acknowledgement. */
  lemma StatusSends(t: Trans, disk: seq<Byte>)
    requires Active(t, disk) && t.byteCount == t.bytesToWrite && t.cswSent == 0
    ensures
      var o := StatusIn(t);
      && o.packets == [CswBytes(t)] && o.fetched == [] && o.t.cswSent == CSW_SIZE && Active(o.t, disk)
      && o.t.currentBlock == 0
    ensures t.currentBlock == t.blockCount
  {
    hide ReadBlock;
    if t.blockCount > 0 {
      assert (512 * t.blockCount + 511) / 512 == t.blockCount;
    }
    assert CswBytes(t)[0..] == CswBytes(t);
  }

  /** Once the wrapper has gone, the transmit callback returns to idle and sends nothing. */
  lemma StatusAcknowledged(t: Trans)
    requires t.cswSent == CSW_SIZE
    ensures StatusIn(t).packets == [] && StatusIn(t).fetched == []
    ensures Idle(StatusIn(t).t) && StatusIn(t).t.lbaStart == 0xffff_ffff
  {
  }

  /** Transmit callbacks until the transfer is over. */
  function Drain(t: Trans, disk: seq<Byte>): Outcome
    requires Active(t, disk)
    decreases t.bytesToWrite - t.byteCount, CSW_SIZE - t.cswSent
  {
    if t.cswSent == CSW_SIZE then Tx(t, disk)
    else
      ActiveStep(t, disk);
      var o := Tx(t, disk);
      var rest := Drain(o.t, disk);
      Outcome(rest.t, o.packets + rest.packets, o.fetched + rest.fetched)
  }

  lemma ActiveStep(t: Trans, disk: seq<Byte>)
    requires Active(t, disk) && t.cswSent == 0
    ensures
      var t' := Tx(t, disk).t;
      Active(t', disk) && t'.bytesToWrite - t'.byteCount <= t.bytesToWrite - t.byteCount &&
      (t.byteCount < t.bytesToWrite || t'.cswSent == CSW_SIZE)
      && (t.byteCount < t.bytesToWrite ==> t'.byteCount > t.byteCount) &&
      t'.bytesToWrite == t.bytesToWrite
  {
    hide DataIn, ReadBlock;
    if t.byteCount < t.bytesToWrite {
      DataInAdvances(t, disk);
    } else {
      StatusSends(t, disk);
    }
  }

  /** Everything a transfer still owes: its data in order, then one status wrapper, then idle; and each sector once. */
  lemma {:induction false} DrainCompletes(t: Trans, disk: seq<Byte>)
    requires Active(t, disk) && t.cswSent == 0
    ensures
      var o := Drain(t, disk);
      && Idle(o.t)
      && o.packets != [] && o.packets[|o.packets| - 1] == CswBytes(t)
      && Flatten(o.packets[..|o.packets| - 1]) == DataDue(t, disk)
      && t.currentBlock <= t.blockCount && o.fetched == FetchesDue(t)
    decreases t.bytesToWrite - t.byteCount
  {
    hide Drain, DataIn, ReadBlock, DataDue, FetchesDue, StatusIn, WordBytes, BlocksActive, PacketLen, KindOf;
    if t.byteCount < t.bytesToWrite {
      DataInSends(t, disk);
      DataInAdvances(t, disk);
      DataInFetches(t, disk);
      DrainMore(t, disk);
      DrainCompletes(DataIn(t, disk).t, disk);
      var rest, first := Drain(DataIn(t, disk).t, disk), DataDue(t, disk)[..PacketLen(t)];
      assert ([first] + rest.packets)[..|rest.packets|] == [first] + rest.packets[..|rest.packets| - 1];
      assert first + DataDue(t, disk)[PacketLen(t)..] == DataDue(t, disk);
    } else {
      DrainStatus(t, disk);
      NothingDue(t, disk);
    }
  }

  lemma DrainMore(t: Trans, disk: seq<Byte>)
    requires Active(t, disk) && t.byteCount < t.bytesToWrite && t.cswSent == 0
    requires FitsFat(disk) && DataIn(t, disk).packets != [] && |DataIn(t, disk).packets| == 1
    ensures Active(DataIn(t, disk).t, disk) && DataIn(t, disk).t.cswSent == 0
    ensures 0 < PacketLen(t) && DataIn(t, disk).t.byteCount == t.byteCount + PacketLen(t)
    ensures
      var o := DataIn(t, disk);
      var rest := Drain(o.t, disk);
      Drain(t, disk) == Outcome(rest.t, o.packets + rest.packets, o.fetched + rest.fetched)
  {
    hide ReadBlock, DataIn, DataDue;
    DataInAdvances(t, disk);
  }

  lemma DrainStatus(t: Trans, disk: seq<Byte>)
    requires Active(t, disk) && t.byteCount == t.bytesToWrite && t.cswSent == 0
    ensures t.currentBlock == t.blockCount
    ensures var o := Drain(t, disk); Idle(o.t) && o.packets == [CswBytes(t)] && o.fetched == []
  {
    hide ReadBlock, CswBytes;
    StatusSends(t, disk);
    var o := StatusIn(t);
    assert Drain(t, disk) == Outcome(StatusIn(o.t).t, o.packets + [], o.fetched + []);
  }

  lemma NothingDue(t: Trans, disk: seq<Byte>)
    requires Active(t, disk) && t.byteCount == t.bytesToWrite && t.currentBlock == t.blockCount
    ensures DataDue(t, disk) == [] && FetchesDue(t) == []
  {
  }

  // ---------- whole transfers ----------

  /** One command: the CBW in a single packet, then transmit callbacks until idle. */
  function Serve(t: Trans, cbw: Cbw, reply: Reply, disk: seq<Byte>): Outcome
    requires FitsFat(disk) && |reply.data| <= SECTOR_SIZE && Idle(t) && !KindOf(cbw[15]).WriteSide?
  {
    CommandActive(t, cbw, reply, disk);
    var o := Rx(t, cbw, reply, disk);
    ActiveStep(Started(t, cbw, reply), disk);
    var rest := Drain(o.t, disk);
    Outcome(rest.t, o.packets + rest.packets, o.fetched + rest.fetched)
  }

  /** The state once the CBW has been taken in. */
  function Started(t: Trans, cbw: Cbw, reply: Reply): Trans
    requires |reply.data| <= SECTOR_SIZE
  {
    CommandStart(t.(cbw := cbw, cbwCnt := CBW_SIZE), reply)
  }

  lemma CommandActive(t: Trans, cbw: Cbw, reply: Reply, disk: seq<Byte>)
    requires FitsFat(disk) && |reply.data| <= SECTOR_SIZE && Idle(t) && !KindOf(cbw[15]).WriteSide?
    ensures
      var s := Started(t, cbw, reply);
      Active(s, disk) && s.cswSent == 0 && s.byteCount == 0 && s.currentBlock == 0
      && Rx(t, cbw, reply, disk) == Tx(s, disk)
  {
    hide ReadBlock, Tx, WordAt, Overlay;
    WholeCbw(t.cbw, cbw);
  }

  lemma WholeCbw(before: Cbw, cbw: Cbw)
    ensures Overlay(before, 0, cbw[..CBW_SIZE]) == cbw && cbw[..CBW_SIZE] == cbw
  {
  }

  /** Serving a command is draining the transfer it starts. */
  lemma ServeIsDrain(t: Trans, cbw: Cbw, reply: Reply, disk: seq<Byte>)
    requires FitsFat(disk) && |reply.data| <= SECTOR_SIZE && Idle(t) && !KindOf(cbw[15]).WriteSide?
    ensures Active(Started(t, cbw, reply), disk) && Serve(t, cbw, reply, disk) == Drain(Started(t, cbw, reply), disk)
  {
    hide Tx, Active, Started, Rx;
    CommandActive(t, cbw, reply, disk);
  }

  /** The sectors lba, lba + 1, ... one after the other. */
  function Sectors(disk: seq<Byte>, lba: Word, count: nat): (s: seq<Byte>)
    requires FitsFat(disk)
    ensures |s| == 512 * count
  {
    if count == 0 then [] else Sectors(disk, lba, count - 1) + ReadBlock(disk, Wrap(lba + count - 1))
  }

  lemma {:induction false} SectorByte(disk: seq<Byte>, lba: Word, count: nat, p: nat)
    requires FitsFat(disk) && p < 512 * count
    ensures Sectors(disk, lba, count)[p] == ReadBlock(disk, Wrap(lba + p / 512))[p % 512]
  {
    hide ReadBlock;
    if p < 512 * (count - 1) {
      SectorByte(disk, lba, count - 1, p);
    } else {
      assert p / 512 == count - 1;
    }
  }

  /** What a read command asks for: first sector and number of sectors. READ(6) takes only 16 bits of address, and a
      count of 0 is nothing. */
  function Requested(cbw: Cbw): (Word, nat)
    requires KindOf(cbw[15]).Read6? || KindOf(cbw[15]).Read10?
  {
    var cb := (i: nat) requires i < 16 => cbw[15 + i] as int;
    if KindOf(cbw[15]).Read6? then (cb(2) * 0x100 + cb(3), cb(4))
    else (cb(2) * 0x100_0000 + cb(3) * 0x1_0000 + cb(4) * 0x100 + cb(5), cb(7) * 0x100 + cb(8))
  }

  lemma ReadDrained(t: Trans, cbw: Cbw, reply: Reply, disk: seq<Byte>)
    requires FitsFat(disk) && |reply.data| <= SECTOR_SIZE && Idle(t)
    requires KindOf(cbw[15]).Read6? || KindOf(cbw[15]).Read10?
    ensures
      var (lba, count) := Requested(cbw);
      var o := Serve(t, cbw, reply, disk);
      var n := |o.packets| - 1;
      && n >= 0 && Flatten(o.packets[..n]) == Sectors(disk, lba, count)
      && o.packets[n] == WordBytes(CSW_SIGNATURE) + WordBytes(WordAt(cbw, 4)) + WordBytes(0) + [CSW_STATUS_SUCCESS]
      && o.fetched == SectorRange(lba, count)
      && Idle(o.t)
  {
    hide Drain, Serve, Sectors, ReadBlock, Flatten, Active, Started, Requested, DataDue, WordBytes, WordAt;
    var (lba, count) := Requested(cbw);
    var s := Started(t, cbw, reply);
    CommandActive(t, cbw, reply, disk);
    ServeIsDrain(t, cbw, reply, disk);
    StartedRead(t, cbw, reply);
    DrainCompletes(s, disk);
    DueIsSectors(s, disk, lba, count);
    assert FetchesDue(s) == SectorRange(lba, count);
  }

  /** An answer on the wire: the packets carry `data` and then one status wrapper, "USBS" with the tag of the command
      (its bytes 4 to 7), the residue and the status; the sectors fetched are those given, and the transport is idle. */
  predicate Answered(o: Outcome, cbw: Cbw, data: seq<Byte>, residue: Word, status: Byte, fetched: seq<Word>) {
    var n := |o.packets| - 1;
    && n >= 0 && Flatten(o.packets[..n]) == data
    && o.packets[n] == [0x55, 0x53, 0x42, 0x53] + cbw[4..8] + WordBytes(residue) + [status]
    && o.fetched == fetched && Idle(o.t)
  }

  /** Signature and tag as bytes. */
  lemma WrapperBytes(cbw: Cbw)
    ensures WordBytes(CSW_SIGNATURE) == [0x55, 0x53, 0x42, 0x53]
    ensures WordBytes(WordAt(cbw, 4)) == cbw[4..8]
  {
    WordIs(WordBytes(WordAt(cbw, 4)), 0, cbw[4..8]);
    WordRoundTrip(WordAt(cbw, 4));
    assert WordAt(cbw[4..8], 0) == WordAt(cbw, 4);
  }

  /** The sector numbers lba, lba + 1, ... */
  function SectorRange(lba: Word, count: nat): seq<Word> {
    seq<Word>(count, i requires 0 <= i < count => Wrap(lba + i))
  }

  /** The transport keeps its promise, byte for byte on the wire, for every address and count. READ(10), code 0x28, has
      the address in bytes 17 to 20 of the command block and the count in bytes 22 and 23: the data packets carry
      exactly those sectors, each fetched once and in order; one successful status wrapper follows; and the transport is
      idle again. */
  lemma ReadTenServed(t: Trans, cbw: Cbw, reply: Reply, disk: seq<Byte>)
    requires FitsFat(disk) && |reply.data| <= SECTOR_SIZE && Idle(t) && cbw[15] == 0x28
    ensures !KindOf(cbw[15]).WriteSide?
    ensures
      var lba: Word :=
        cbw[17] as int * 0x100_0000 + cbw[18] as int * 0x1_0000 + cbw[19] as int * 0x100 + cbw[20] as int;
      var count: nat := cbw[22] as int * 0x100 + cbw[23] as int;
      Answered(Serve(t, cbw, reply, disk), cbw, Sectors(disk, lba, count), 0, 0, SectorRange(lba, count))
  {
    hide Serve, Sectors, Flatten, WordAt, Idle, WordBytes;
    ReadDrained(t, cbw, reply, disk);
    WrapperBytes(cbw);
  }

  /** READ(6), code 0x08, likewise, with the address in bytes 17 and 18 and the count in byte 19. */
  lemma ReadSixServed(t: Trans, cbw: Cbw, reply: Reply, disk: seq<Byte>)
    requires FitsFat(disk) && |reply.data| <= SECTOR_SIZE && Idle(t) && cbw[15] == 0x08
    ensures !KindOf(cbw[15]).WriteSide?
    ensures
      var lba: Word := cbw[17] as int * 0x100 + cbw[18] as int;
      var count: nat := cbw[19];
      Answered(Serve(t, cbw, reply, disk), cbw, Sectors(disk, lba, count), 0, 0, SectorRange(lba, count))
  {
    hide Serve, Sectors, Flatten, WordAt, Idle, WordBytes;
    ReadDrained(t, cbw, reply, disk);
    WrapperBytes(cbw);
  }

  lemma StartedRead(t: Trans, cbw: Cbw, reply: Reply)
    requires |reply.data| <= SECTOR_SIZE && (KindOf(cbw[15]).Read6? || KindOf(cbw[15]).Read10?)
    ensures
      var s := Started(t, cbw, reply);
      && (s.lbaStart, s.blockCount) == Requested(cbw) && s.bytesToWrite == 512 * s.blockCount
      && s.cswSignature == CSW_SIGNATURE && s.cswTag == WordAt(cbw, 4) && s.cswResidue == 0
      && s.cswStatus == CSW_STATUS_SUCCESS
  {
  }

  lemma DueIsSectors(s: Trans, disk: seq<Byte>, lba: Word, count: nat)
    requires FitsFat(disk) && s.byteCount == 0 && s.bytesToWrite == 512 * count && s.lbaStart == lba
      && s.blockCount == count
    ensures DataDue(s, disk) == Sectors(disk, lba, count)
  {
    hide ReadBlock, Sectors;
    forall p | 0 <= p < 512 * count
      ensures DataDue(s, disk)[p] == Sectors(disk, lba, count)[p]
    {
      SectorByte(disk, lba, count, p);
      assert DataDue(s, disk)[p] == DataByte(s, disk, 0 + p);
    }
  }

  lemma OtherDrained(t: Trans, cbw: Cbw, reply: Reply, disk: seq<Byte>)
    requires FitsFat(disk) && |reply.data| <= SECTOR_SIZE && Idle(t)
    requires KindOf(cbw[15]).Table? || KindOf(cbw[15]).Plain? || KindOf(cbw[15]).Unknown?
    ensures
      var o := Serve(t, cbw, reply, disk);
      var n := |o.packets| - 1;
      var status := if KindOf(cbw[15]).Unknown? then CSW_STATUS_FAILED else CSW_STATUS_SUCCESS;
      var residue := if KindOf(cbw[15]).Table? then reply.residue else 0;
      && n >= 0 && Flatten(o.packets[..n]) == (if KindOf(cbw[15]).Table? then reply.data else [])
      && o.packets[n] == WordBytes(CSW_SIGNATURE) + WordBytes(WordAt(cbw, 4)) + WordBytes(residue) + [status]
      && o.fetched == [] && Idle(o.t)
  {
    hide Drain, Serve, ReadBlock, Flatten, Active, Started, DataDue, WordBytes, WordAt;
    var s := Started(t, cbw, reply);
    CommandActive(t, cbw, reply, disk);
    ServeIsDrain(t, cbw, reply, disk);
    StartedOther(t, cbw, reply, disk);
    DrainCompletes(s, disk);
  }

  /** Every other command outside the write side, by its code: request sense, inquiry, mode sense and the two capacity
      commands are answered with their reply; test unit ready, send diagnostic and prevent removal with success alone;
      all other codes fail. Then the transport is idle. */
  lemma OtherServed(t: Trans, cbw: Cbw, reply: Reply, disk: seq<Byte>)
    requires FitsFat(disk) && |reply.data| <= SECTOR_SIZE && Idle(t)
    requires cbw[15] !in {0x08, 0x28} && cbw[15] !in {0x04, 0x0A, 0x2A}
    ensures !KindOf(cbw[15]).WriteSide?
    ensures
      var o := Serve(t, cbw, reply, disk);
      if cbw[15] in {0x03, 0x12, 0x1A, 0x23, 0x25} then Answered(o, cbw, reply.data, reply.residue, 0, [])
      else Answered(o, cbw, [], 0, if cbw[15] in {0x00, 0x1D, 0x1E} then 0 else 1, [])
  {
    hide Serve, Flatten, WordAt, Idle, WordBytes;
    OtherDrained(t, cbw, reply, disk);
    WrapperBytes(cbw);
  }

  lemma StartedOther(t: Trans, cbw: Cbw, reply: Reply, disk: seq<Byte>)
    requires FitsFat(disk) && |reply.data| <= SECTOR_SIZE && Idle(t)
    requires KindOf(cbw[15]).Table? || KindOf(cbw[15]).Plain? || KindOf(cbw[15]).Unknown?
    ensures
      var s := Started(t, cbw, reply);
      && s.bytesToWrite <= SECTOR_SIZE && s.byteCount == 0 && s.blockCount == s.currentBlock == 0
      && DataDue(s, disk) == (if KindOf(cbw[15]).Table? then reply.data else [])
      && s.cswSignature == CSW_SIGNATURE && s.cswTag == WordAt(cbw, 4)
      && s.cswResidue == (if KindOf(cbw[15]).Table? then reply.residue else 0)
      && s.cswStatus == if KindOf(cbw[15]).Unknown? then CSW_STATUS_FAILED else CSW_STATUS_SUCCESS
  {
    hide ReadBlock, WordAt;
    var s := Started(t, cbw, reply);
    forall i | 0 <= i < s.bytesToWrite
      ensures DataDue(s, disk)[i] == reply.data[i]
    {
      assert DataDue(s, disk)[i] == DataByte(s, disk, 0 + i);
    }
  }

  /** A session of commands, each served to the end. */
  function ServeAll(t: Trans, commands: seq<(Cbw, Reply)>, disk: seq<Byte>): (r: Trans)
    requires FitsFat(disk) && Idle(t)
    requires forall c :: c in commands ==> |c.1.data| <= SECTOR_SIZE && !KindOf(c.0[15]).WriteSide?
    ensures Idle(r)
    decreases |commands|
  {
    if commands == [] then t
    else
      ServedIdle(t, commands[0].0, commands[0].1, disk);
      ServeAll(Serve(t, commands[0].0, commands[0].1, disk).t, commands[1..], disk)
  }

  lemma ServedIdle(t: Trans, cbw: Cbw, reply: Reply, disk: seq<Byte>)
    requires FitsFat(disk) && |reply.data| <= SECTOR_SIZE && Idle(t) && !KindOf(cbw[15]).WriteSide?
    ensures Idle(Serve(t, cbw, reply, disk).t)
  {
    hide Drain, Serve, Started;
    CommandActive(t, cbw, reply, disk);
    ServeIsDrain(t, cbw, reply, disk);
    DrainCompletes(Started(t, cbw, reply), disk);
  }

  /** READ(10) does not reset the current block, READ(6) does: only because idle means block 0 does READ(10) start at
      the address asked for. */
  lemma ReadTenTrustsIdle(t: Trans, cbw: Cbw, reply: Reply, disk: seq<Byte>)
    requires FitsFat(disk) && |reply.data| <= SECTOR_SIZE && Idle(t.(currentBlock := 0))
    requires (KindOf(cbw[15]).Read6? || KindOf(cbw[15]).Read10?) && Requested(cbw).1 > 0
    ensures Rx(t, cbw, reply, disk).fetched ==
      [Wrap(Requested(cbw).0 + if KindOf(cbw[15]).Read10? then t.currentBlock else 0)]
  {
    hide ReadBlock, Overlay, WordAt;
    WholeCbw(t.cbw, cbw);
  }

  /** A command block that arrives in pieces is answered too early: its first fragment alone draws a status wrapper,
      with the signature, tag and residue of the last complete command, all zero if there was none, and its status too
      unless the code now in the buffer is unknown. */
  lemma FragmentDrawsStatus(t: Trans, fragment: seq<Byte>, reply: Reply, disk: seq<Byte>)
    requires FitsFat(disk) && |reply.data| <= SECTOR_SIZE && Idle(t) && |fragment| < CBW_SIZE
    ensures
      var o := Rx(t, fragment, reply, disk);
      && o.t.cbwCnt == |fragment| && |o.packets| == 1 && |o.packets[0]| == CSW_SIZE && o.fetched == []
      && o.packets[0][..12] == WordBytes(t.cswSignature) + WordBytes(t.cswTag) + WordBytes(t.cswResidue)
      && var op := if |fragment| > 15 then fragment[15] else t.cbw[15];
         o.packets[0][12] == if op in {0x00, 0x03, 0x04, 0x08, 0x0A, 0x12, 0x1A, 0x1D, 0x1E, 0x23, 0x25, 0x28, 0x2A}
                             then t.cswStatus else 1
  {
    hide ReadBlock, WordBytes;
  }

  // ---------- the mutable transport ----------

  class MassStorage {
    const disk: array<Byte>
    const cbw: array<Byte>
    const msdBuf: array<Byte>
    var cbwCnt: nat
    var bytesToWrite: nat
    var byteCount: nat
    var lbaStart: Word
    var blockCount: nat
    var currentBlock: nat
    var cswValid: bool
    var cswSent: nat
    var cswSignature: Word
    var cswTag: Word
    var cswResidue: Word
    var cswStatus: Byte

    ghost predicate Valid()
      reads this, disk, cbw, msdBuf
    {
      && cbw.Length == CBW_SIZE && msdBuf.Length == SECTOR_SIZE && FitsFat(disk[..]) && cswSent <= CSW_SIZE
      && disk != cbw && disk != msdBuf && cbw != msdBuf
    }

    ghost function Value(): Trans
      requires Valid()
      reads this, disk, cbw, msdBuf
    {
      Trans(cbwCnt, cbw[..], bytesToWrite, byteCount, lbaStart, blockCount, currentBlock, msdBuf[..], cswValid, cswSent,
            cswSignature, cswTag, cswResidue, cswStatus)
    }

    /** custom_usb_msc_init; what it does not set is zero to begin with. */
    constructor (disk: array<Byte>)
      requires FitsFat(disk[..])
      ensures Valid() && this.disk == disk && fresh(cbw) && fresh(msdBuf) && Idle(Value()) && cswSignature == 0
    {
      this.disk := disk;
      cbw := new Byte[CBW_SIZE](_ => 0);
      msdBuf := new Byte[SECTOR_SIZE](_ => 0);
      cbwCnt, bytesToWrite, byteCount, lbaStart, blockCount, currentBlock := 0, 0, 0, 0xffff_ffff, 0, 0;
      cswValid, cswSent, cswSignature, cswTag, cswResidue, cswStatus := false, 0, 0, 0, 0, 0;
    }

    method SendData() returns (packet: seq<Byte>, ghost fetched: seq<Word>)
      requires Valid() && byteCount < bytesToWrite
      modifies this, msdBuf
      ensures Valid() && Outcome(Value(), [packet], fetched) == DataIn(old(Value()), disk[..])
    {
      hide ReadBlock;
      fetched := [];
      if blockCount > 0 && byteCount % 512 == 0 {
        var lba := Wrap(lbaStart + currentBlock);
        FillSector(disk, lba, msdBuf);
        fetched := [lba];
        currentBlock := currentBlock + 1;
      }
      var at := byteCount % 512;
      var left := bytesToWrite - byteCount;
      var len := if left < PACKET_SIZE then left else PACKET_SIZE;
      packet := msdBuf[at..if at + len > SECTOR_SIZE then SECTOR_SIZE else at + len];
      byteCount := byteCount + len;
    }

    method SettleStatus()
      requires Valid()
      modifies this
      ensures Valid() && Value() == StatusReady(old(Value()))
    {
      if blockCount > 0 && currentBlock == blockCount {
        currentBlock := 0;
      }
      if !cswValid {
        if KindOf(cbw[15]).Unknown? {
          bytesToWrite := 0;
          cswStatus := CSW_STATUS_FAILED;
        }
        cswValid := true;
      }
    }

    method SendStatus() returns (packets: seq<seq<Byte>>)
      requires Valid()
      modifies this
      ensures Valid() && Outcome(Value(), packets, []) == StatusIn(old(Value()))
    {
      hide WordBytes, StatusReady;
      packets := [];
      SettleStatus();
      if cswSent < CSW_SIZE {
        var csw := WordBytes(cswSignature) + WordBytes(cswTag) + WordBytes(cswResidue) + [cswStatus];
        packets := [csw[cswSent..]];
        cswSent := CSW_SIZE;
      } else {
        lbaStart, blockCount, currentBlock, cbwCnt, bytesToWrite, byteCount := 0xffff_ffff, 0, 0, 0, 0, 0;
        cswSent, cswValid := 0, false;
      }
    }

    /** msc_data_tx_cb. */
    method TxCallback() returns (packets: seq<seq<Byte>>, ghost fetched: seq<Word>)
      requires Valid()
      modifies this, msdBuf
      ensures Valid() && Outcome(Value(), packets, fetched) == Tx(old(Value()), disk[..])
    {
      hide DataIn, StatusIn;
      if byteCount < bytesToWrite {
        var packet;
        packet, fetched := SendData();
        packets := [packet];
        DataInOnePacket(old(Value()), disk[..]);
      } else {
        packets := SendStatus();
        fetched := [];
      }
    }

    /** The defaults scsi_command sets for each complete CBW. */
    method StartStatus()
      requires Valid()
      modifies this
      ensures Valid()
      ensures
        var t := old(Value());
        Value() == t.(cswSent := 0, cswSignature := CSW_SIGNATURE, cswTag := WordAt(t.cbw, 4), cswResidue := 0,
                      cswStatus := CSW_STATUS_SUCCESS, bytesToWrite := 0, byteCount := 0)
    {
      hide WordAt, FitsFat;
      cswSent, cswSignature, cswTag, cswResidue := 0, CSW_SIGNATURE, WordAt(cbw[..], 4), 0;
      cswStatus, bytesToWrite, byteCount := CSW_STATUS_SUCCESS, 0, 0;
    }

    /** scsi_command on a complete CBW. */
    method StartCommand(reply: Reply)
      requires Valid() && |reply.data| <= SECTOR_SIZE
      modifies this, msdBuf
      ensures Valid() && Value() == CommandStart(old(Value()), reply)
    {
      hide WordAt, Overlay, KindOf;
      StartStatus();
      match KindOf(cbw[15]) {
        case Read6 => StartRead6();
        case Read10 => StartRead10();
        case Table =>
          CopyInto(msdBuf, 0, reply.data);
          bytesToWrite, cswResidue := |reply.data|, reply.residue;
        case Unknown => cswStatus := CSW_STATUS_FAILED;
        case _ =>
      }
    }

    /** scsi_read_6. */
    method StartRead6()
      requires Valid()
      modifies this
      ensures Valid()
      ensures
        var t := old(Value());
        Value() ==
            t.(lbaStart := Cb(t, 2) * 0x100 + Cb(t, 3), blockCount := Cb(t, 4), currentBlock := 0,
            bytesToWrite := Cb(t, 4) * 512)
    {
      lbaStart, blockCount := cbw[17] as int * 0x100 + cbw[18] as int, cbw[19];
      currentBlock := 0;
      bytesToWrite := blockCount * 512;
    }

    /** scsi_read_10, which leaves the current block as it is. */
    method StartRead10()
      requires Valid()
      modifies this
      ensures Valid()
      ensures
        var t := old(Value());
        var count := Cb(t, 7) * 0x100 + Cb(t, 8);
        Value() == t.(lbaStart := Cb(t, 2) * 0x100_0000 + Cb(t, 3) * 0x1_0000 + Cb(t, 4) * 0x100 + Cb(t, 5),
                      blockCount := count, bytesToWrite := count * 512)
    {
      lbaStart := cbw[17] as int * 0x100_0000 + cbw[18] as int * 0x1_0000 + cbw[19] as int * 0x100 + cbw[20] as int;
      blockCount := cbw[22] as int * 0x100 + cbw[23] as int;
      bytesToWrite := blockCount * 512;
    }

    /** msc_data_rx_cb, while idle. */
    method RxCallback(packet: seq<Byte>, reply: Reply) returns (packets: seq<seq<Byte>>, ghost fetched: seq<Word>)
      requires Valid() && |reply.data| <= SECTOR_SIZE && cbwCnt == 0 && cswSent == 0
      modifies this, cbw, msdBuf
      ensures Valid() && Outcome(Value(), packets, fetched) == Rx(old(Value()), packet, reply, disk[..])
    {
      hide Tx, CommandStart;
      var len := if |packet| < CBW_SIZE then |packet| else CBW_SIZE;
      CopyInto(cbw, 0, packet[..len]);
      cbwCnt := len;
      if len == CBW_SIZE {
        StartCommand(reply);
      }
      packets, fetched := TxCallback();
    }
  }

  lemma DataInOnePacket(t: Trans, disk: seq<Byte>)
    requires FitsFat(disk) && t.byteCount < t.bytesToWrite
    ensures |DataIn(t, disk).packets| == 1
  {
    hide ReadBlock;
  }
}
