// hf2.c: messages cut into 64-byte USB packets and put together again.

module Hf2Framing {
  import opened Platform

  const HF2_BUF_SIZE := FLASH_PAGE_SIZE + 64
  const PACKET_SIZE := 64
  const MAX_DATA := 63
  const FLAG_BODY := 0x00
  const FLAG_LAST := 0x40
  const FLAG_MASK := 0xC0

  type Packet = p: seq<Byte> | |p| == PACKET_SIZE witness seq(PACKET_SIZE, _ => 0)

  /** HF2_SIZE_MASK and HF2_FLAG_MASK applied to a tag. */
  function TagSize(tag: Byte): nat { tag % 0x40 }
  function TagFlag(tag: Byte): Byte { tag / 0x40 * 0x40 }

  // ---------- sending ----------

  /** How many bytes of a message the next packet takes. */
  function ChunkSize(message: seq<Byte>): (s: nat)
    ensures s <= |message| && s <= MAX_DATA
    ensures message != [] ==> s > 0
  {
    if |message| < MAX_DATA then |message| else MAX_DATA
  }

  /** The packet pokeSend builds for a message (or its remainder) that ends with a LAST packet: a chunk that fills the
      packet is marked as body. */
  function NextPacket(message: seq<Byte>): Packet {
    var s := ChunkSize(message);
    [(if |message| < MAX_DATA then FLAG_LAST else FLAG_BODY) + s] + message[..s] + seq(MAX_DATA - s, _ => 0)
  }

  /** The packets of a whole message. */
  function Packets(message: seq<Byte>): seq<Packet>
    decreases |message|
  {
    if message == [] then [] else [NextPacket(message)] + Packets(message[ChunkSize(message)..])
  }

  lemma PacketsNext(sent: seq<Packet>, message: seq<Byte>)
    requires message != []
    ensures sent + Packets(message) == sent + [NextPacket(message)] + Packets(message[ChunkSize(message)..])
  {
    hide NextPacket;
  }

  // ---------- receiving ----------

  /** Buffered bytes and the commands handled so far. */
  datatype Receiver = Receiver(buf: seq<Byte>, delivered: seq<seq<Byte>>)

  /** hf2_data_rx_cb for one packet. */
  function Receive(r: Receiver, p: Packet): Receiver {
    var data := p[1..1 + TagSize(p[0])];
    if TagFlag(p[0]) == FLAG_BODY then r.(buf := r.buf + data)
    else if TagFlag(p[0]) == FLAG_LAST then Receiver([], r.delivered + [r.buf + data])
    else Receiver([], r.delivered)
  }

  function ReceiveAll(r: Receiver, ps: seq<Packet>): Receiver
    decreases |ps|
  {
    if ps == [] then r else ReceiveAll(Receive(r, ps[0]), ps[1..])
  }

  lemma NextPacketReceived(r: Receiver, message: seq<Byte>)
    requires message != []
    ensures
      var s := ChunkSize(message);
      Receive(r, NextPacket(message)) ==
        if |message| < MAX_DATA then Receiver([], r.delivered + [r.buf + message]) else r.(buf := r.buf + message[..s])
  {
    var s := ChunkSize(message);
    var p := NextPacket(message);
    assert p[1..1 + s] == message[..s];
    assert |message| < MAX_DATA ==> message[..s] == message;
  }

  /** What the receiver makes of a sent message: delivered once and whole, with the buffer empty again, unless its
      length is a multiple of 63; then every byte arrives but stays in the buffer. */
  lemma {:induction false} MessageReceived(r: Receiver, message: seq<Byte>)
    ensures ReceiveAll(r, Packets(message)) ==
      if |message| % MAX_DATA != 0 then Receiver([], r.delivered + [r.buf + message]) else r.(buf := r.buf + message)
    decreases |message|
  {
    hide NextPacket, Receive;
    if message == [] {
      assert r.buf + [] == r.buf;
    } else {
      var s := ChunkSize(message);
      NextPacketReceived(r, message);
      if |message| >= MAX_DATA {
        MessageReceived(Receive(r, NextPacket(message)), message[s..]);
        assert r.buf + message[..s] + message[s..] == r.buf + message;
      } else {
        assert message[s..] == [];
      }
    }
  }

  /** The framing round trip, exactly: a message sent to a receiver with an empty buffer is delivered, alone and
      unchanged, if and only if its length is not a multiple of 63. */
  lemma RoundTripIff(r: Receiver, message: seq<Byte>)
    requires r.buf == []
    ensures ReceiveAll(r, Packets(message)) == Receiver([], r.delivered + [message]) <==> |message| % MAX_DATA != 0
  {
    hide Packets, ReceiveAll;
    MessageReceived(r, message);
    assert [] + message == message;
    assert r.delivered + [message] != r.delivered;
  }

  lemma ReceiveAllThen(r: Receiver, a: seq<Packet>, b: seq<Packet>)
    ensures ReceiveAll(r, a + b) == ReceiveAll(ReceiveAll(r, a), b)
    decreases |a|
  {
    hide Receive;
    if a == [] {
      assert a + b == b;
    } else {
      assert (a + b)[1..] == a[1..] + b;
      ReceiveAllThen(Receive(r, a[0]), a[1..], b);
    }
  }

  /** A message without a LAST packet is glued to the front of the next one. */
  lemma UnfinishedIsGlued(r: Receiver, first: seq<Byte>, second: seq<Byte>)
    requires r.buf == [] && |first| % MAX_DATA == 0 && |second| % MAX_DATA != 0
    ensures ReceiveAll(r, Packets(first) + Packets(second)) == Receiver([], r.delivered + [first + second])
  {
    hide Packets, ReceiveAll;
    ReceiveAllThen(r, Packets(first), Packets(second));
    MessageReceived(r, first);
    assert [] + first == first;
    MessageReceived(r.(buf := first), second);
  }

  /** The buffer never holds more than the message so far: a message that fits never overruns it. */
  lemma {:induction false} NeverOverruns(r: Receiver, message: seq<Byte>, k: nat)
    requires |r.buf| + |message| <= HF2_BUF_SIZE && k <= |Packets(message)|
    ensures |ReceiveAll(r, Packets(message)[..k]).buf| <= HF2_BUF_SIZE
    decreases |message|
  {
    hide NextPacket, Receive;
    var ps := Packets(message);
    if k > 0 {
      NextPacketReceived(r, message);
      var rest := message[ChunkSize(message)..];
      assert ps[..k] == [ps[0]] + Packets(rest)[..k - 1];
      NeverOverruns(Receive(r, ps[0]), rest, k - 1);
    }
  }

  // ---------- the wire ----------

  /** The tag byte a packet is sent with: 0x40 and the size for the last packet of a message, the plain size for one
      that is followed by another; then the data, and zeros to the end. */
  lemma TagSent(message: seq<Byte>)
    ensures NextPacket(message)[0] == if |message| < 63 then 0x40 + |message| else 63
    ensures NextPacket(message)[1..1 + ChunkSize(message)] == message[..ChunkSize(message)]
    ensures forall i :: 1 + ChunkSize(message) <= i < 64 ==> NextPacket(message)[i] == 0
  {
  }

  /** What a received tag byte means: below 0x40 the data is kept, from 0x40 to 0x7F what was kept and the data are
      delivered, from 0x80 on (serial output) both are dropped. The low six bits are the size. */
  lemma TagReceived(r: Receiver, p: Packet)
    ensures
      var data := p[1..1 + p[0] % 64];
      Receive(r, p) == if p[0] < 0x40 then Receiver(r.buf + data, r.delivered)
                       else if p[0] < 0x80 then Receiver([], r.delivered + [r.buf + data])
                       else Receiver([], r.delivered)
  {
  }

  // ---------- one buffer for both directions ----------

  /** pkt->buf while a response is being sent: the bytes from `from` to `end` are still to go, and received data is
      put in from `fill` on. */
  datatype Shared = Shared(buf: seq<Byte>, fill: nat, from: nat, end: nat)

  function Refill(s: Shared, data: seq<Byte>): Shared
    requires s.fill + |data| <= |s.buf|
  {
    s.(buf := Overlay(s.buf, s.fill, data), fill := s.fill + |data|)
  }

  /** What has still to be sent. */
  function Unsent(s: Shared): seq<Byte>
    requires s.from <= s.end <= |s.buf|
  {
    s.buf[s.from..s.end]
  }

  /** Data of that size, whatever it is, does not touch what has still to be sent. */
  ghost predicate LeavesRest(s: Shared, size: nat)
    requires s.from <= s.end <= |s.buf| && s.fill + size <= |s.buf|
  {
    forall data: seq<Byte> :: |data| == size ==> Unsent(Refill(s, data)) == Unsent(s)
  }

  /** Exactly when a packet that arrives while a response is being sent leaves the rest of that response intact: when
      it ends before what has been sent so far does, or starts behind all of it. */
  lemma RestIntactIff(s: Shared, size: nat)
    requires s.from <= s.end <= |s.buf| && s.fill + size <= |s.buf|
    ensures LeavesRest(s, size) <==> size == 0 || s.from == s.end || s.fill + size <= s.from || s.end <= s.fill
  {
    hide Overlay, Unsent;
    if size > 0 && s.from < s.end && s.from < s.fill + size && s.fill < s.end {
      var at := if s.fill < s.from then s.from else s.fill;
      var other: Byte := if s.buf[at] == 0 then 1 else 0;
      Overwritten(s, seq(size, _ => other), at);
    } else {
      forall data: seq<Byte> | |data| == size
        ensures Unsent(Refill(s, data)) == Unsent(s)
      {
        Untouched(s, data);
      }
    }
  }

  lemma Overwritten(s: Shared, data: seq<Byte>, at: nat)
    requires s.from <= at < s.end <= |s.buf| && s.fill <= at < s.fill + |data| <= |s.buf|
    requires data[at - s.fill] != s.buf[at]
    ensures Unsent(Refill(s, data)) != Unsent(s)
  {
    assert Refill(s, data).buf[at] == data[at - s.fill];
    assert Unsent(Refill(s, data))[at - s.from] != Unsent(s)[at - s.from];
  }

  lemma Untouched(s: Shared, data: seq<Byte>)
    requires s.from <= s.end <= |s.buf| && s.fill + |data| <= |s.buf|
    requires data == [] || s.from == s.end || s.fill + |data| <= s.from || s.end <= s.fill
    ensures Unsent(Refill(s, data)) == Unsent(s)
  {
    var r := Refill(s, data);
    forall i | s.from <= i < s.end
      ensures r.buf[i] == s.buf[i]
    {
    }
  }

  // ---------- the mutable endpoints ----------

  datatype StartupMode = Unknown | BaseloaderMode | BootloaderMode | ApplicationMode

  /** The sending side: the remainder of the message being sent, and the packets put on the wire. */
  class Sender {
    var remaining: seq<Byte>
    var restartRequest: StartupMode
    ghost var wire: seq<Packet>

    constructor ()
      ensures remaining == [] && restartRequest == Unknown && wire == []
    {
      remaining, restartRequest, wire := [], Unknown, [];
    }

    /** pokeSend: sends the next packet of `data`, if any, and keeps the rest for the transmit callback. */
    method PokeSend(data: seq<Byte>)
      modifies this
      ensures restartRequest == old(restartRequest)
      ensures data != [] ==> wire + Packets(remaining) == old(wire) + Packets(data) && |remaining| < |data|
      ensures data == [] ==> wire == old(wire) && remaining == old(remaining)
    {
      hide Packets, NextPacket;
      if data == [] { return; }
      var s := ChunkSize(data);
      PacketsNext(wire, data);
      wire := wire + [NextPacket(data)];
      remaining := data[s..];
    }

    /** send_hf2_response, for a message already laid out: sends its first packet. */
    method SendResponse(message: seq<Byte>)
      requires message != []
      modifies this
      ensures restartRequest == old(restartRequest)
      ensures wire + Packets(remaining) == old(wire) + Packets(message)
    {
      PokeSend(message);
    }

    /** hf2_data_tx_cb: one more packet; a requested restart happens only when nothing remains, and once. */
    method TxCallback() returns (restart: StartupMode)
      modifies this
      ensures wire + Packets(remaining) == old(wire + Packets(remaining))
      ensures old(remaining) != [] ==> |remaining| < |old(remaining)|
      ensures restart != Unknown ==> remaining == [] && restart == old(restartRequest) && restartRequest == Unknown
      ensures restart == Unknown ==> restartRequest == old(restartRequest)
      ensures old(remaining) == [] ==> restart == old(restartRequest) && remaining == [] && wire == old(wire)
    {
      restart := Unknown;
      if remaining != [] {
        PokeSend(remaining);
      }
      if remaining == [] && restartRequest != Unknown {
        restart := restartRequest;
        restartRequest := Unknown;
      }
    }

    /** Driven to the end, the callbacks put exactly the packets of the message on the wire, before any restart. */
    method SendWhole(message: seq<Byte>) returns (restart: StartupMode)
      requires message != []
      modifies this
      ensures wire == old(wire) + Packets(message) && remaining == []
      ensures restart == old(restartRequest)
    {
      SendResponse(message);
      restart := Unknown;
      ghost var all := wire + Packets(remaining);
      while remaining != []
        invariant wire + Packets(remaining) == all
        invariant if restart == Unknown then restartRequest == old(restartRequest)
                  else remaining == [] && restart == old(restartRequest)
        decreases |remaining|
      {
        restart := TxCallback();
      }
      if restart == Unknown {
        restart := TxCallback();
      }
      assert wire + [] == wire;
    }
  }

  /** The receiving side: the packet buffer and its fill. */
  class Receptor {
    const buf: array<Byte>
    var size: nat
    ghost var delivered: seq<seq<Byte>>

    ghost predicate Valid()
      reads this
    {
      buf.Length == HF2_BUF_SIZE && size <= HF2_BUF_SIZE
    }

    ghost function Value(): Receiver
      requires Valid()
      reads this, buf
    {
      Receiver(buf[..size], delivered)
    }

    constructor ()
      ensures Valid() && Value() == Receiver([], [])
    {
      buf := new Byte[HF2_BUF_SIZE](_ => 0);
      size := 0;
      delivered := [];
    }

    /** hf2_data_rx_cb. */
    method DataReceived(p: Packet)
      requires Valid() && size + TagSize(p[0]) <= HF2_BUF_SIZE
      modifies this, buf
      ensures Valid() && Value() == Receive(old(Value()), p)
    {
      var n := TagSize(p[0]);
      ghost var was := buf[..size];
      for i := 0 to n
        invariant Valid() && size == old(size) && delivered == old(delivered)
        invariant buf[..size] == was && buf[size..size + i] == p[1..1 + i]
      {
        buf[size + i] := p[1 + i];
      }
      size := size + n;
      assert buf[..size] == was + p[1..1 + n];
      if TagFlag(p[0]) != FLAG_BODY {
        if TagFlag(p[0]) == FLAG_LAST {
          delivered := delivered + [buf[..size]];
        }
        size := 0;
      }
    }
  }
}
