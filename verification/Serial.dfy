// CmSerial.cpp: the receive and transmit rings shared with the serial interrupts.

module Serial {
  import opened Platform

  /** A circular buffer: `tail` is the next byte out, `head` the next free place; one place always stays free. */
  datatype Ring = Ring(buf: seq<Byte>, head: nat, tail: nat)

  /** The buffer has the requested capacity plus one; sizes are 8-bit. */
  predicate Good(r: Ring) {
    1 <= |r.buf| <= 255 && r.head < |r.buf| && r.tail < |r.buf|
  }

  lemma ModOnce(x: nat, n: nat)
    requires 0 < n && x < 2 * n
    ensures x % n == if x < n then x else x - n
  {
    if x >= n {
      assert (x - n) % n == x - n;
      assert x == n + (x - n);
    }
  }

  /** (i + k) % n for a position and a distance within one turn. */
  function Advance(i: nat, k: nat, n: nat): (j: nat)
    requires i < n && k <= n
    ensures j == if i + k < n then i + k else i + k - n
    ensures j < n
  {
    ModOnce(i + k, n);
    (i + k) % n
  }

  /** rxBufferedSize and txBufferedSize. */
  function BufferedSize(r: Ring): (n: nat)
    requires Good(r)
  {
    if r.tail > r.head then |r.buf| - r.tail + r.head else r.head - r.tail
  }

  /** The bytes waiting, oldest first. */
  function Contents(r: Ring): (s: seq<Byte>)
    requires Good(r)
    ensures |s| == BufferedSize(r)
    ensures forall k :: 0 <= k < |s| ==> s[k] == r.buf[Advance(r.tail, k, |r.buf|)]
  {
    if r.tail > r.head then r.buf[r.tail..] + r.buf[..r.head] else r.buf[r.tail..r.head]
  }

  /** How many bytes the ring can hold. */
  function Capacity(r: Ring): int {
    |r.buf| - 1
  }

  /** dataReceived and one pass of setTxInterrupt: stores a byte if there is room. */
  function Push(r: Ring, c: Byte): (r': Ring)
    requires Good(r)
    ensures Good(r')
  {
    var newHead := Advance(r.head, 1, |r.buf|);
    if newHead != r.tail then Ring(r.buf[r.head := c], newHead, r.tail) else r
  }

  /** getChar's and dataWritten's removal of the oldest byte. */
  function Pop(r: Ring): (r': Ring)
    requires Good(r)
    ensures Good(r')
  {
    Ring(r.buf, r.head, Advance(r.tail, 1, |r.buf|))
  }

  /** A push appends exactly when the ring is not full, and otherwise changes nothing: a bounded queue. */
  lemma PushIsEnqueue(r: Ring, c: Byte)
    requires Good(r)
    ensures Contents(Push(r, c)) == if |Contents(r)| < Capacity(r) then Contents(r) + [c] else Contents(r)
    ensures Push(r, c) != r ==> |Contents(r)| < Capacity(r)
    ensures |Contents(r)| <= Capacity(r)
    ensures Advance(r.head, 1, |r.buf|) == r.tail <==> |Contents(r)| == Capacity(r)
  {
  }

  /** A pop of a non-empty ring takes the oldest byte. */
  lemma PopIsDequeue(r: Ring)
    requires Good(r) && r.head != r.tail
    ensures Contents(r) == [r.buf[r.tail]] + Contents(Pop(r))
  {
  }

  lemma EmptyIff(r: Ring)
    requires Good(r)
    ensures r.head == r.tail <==> Contents(r) == []
  {
  }

  /** The head is where the waiting bytes end, and no earlier position is. */
  lemma HeadIsEnd(r: Ring, k: nat)
    requires Good(r) && k <= |Contents(r)|
    ensures Advance(r.tail, k, |r.buf|) == r.head <==> k == |Contents(r)|
  {
  }

  /** The distance readUntil computes from two positions. */
  function Distance(from: nat, to: nat, n: nat): int
    requires from < n && to < n
  {
    if from > to then n - from + to else to - from
  }

  lemma DistanceBack(from: nat, k: nat, n: nat)
    requires from < n && k < n
    ensures Distance(from, Advance(from, k, n), n) == k
    ensures Advance(Advance(from, k, n), 1, n) == if k + 1 < n then Advance(from, k + 1, n) else from
  {
  }

  /** Moving the tail k bytes on drops the k oldest. */
  lemma DropMany(r: Ring, k: nat)
    requires Good(r) && k <= |Contents(r)|
    ensures
      var r' := Ring(r.buf, r.head, Advance(r.tail, k, |r.buf|));
      Good(r') && Contents(r') == Contents(r)[k..]
  {
  }

  // ---------- the receiver under interrupts ----------

  /** The ring with what it accepted from the line and what was taken from it, over all time. */
  datatype Line = Line(ring: Ring, accepted: seq<Byte>, taken: seq<Byte>)

  /** A receive interrupt, or a read of one byte if there is one. */
  datatype Event = Arrives(c: Byte) | Take

  function Handle(l: Line, e: Event): (l': Line)
    requires Good(l.ring)
    ensures Good(l'.ring)
  {
    match e
    case Arrives(c) =>
      if Advance(l.ring.head, 1, |l.ring.buf|) != l.ring.tail
          then l.(ring := Push(l.ring, c), accepted := l.accepted + [c]) else l
    case Take =>
      if l.ring.head != l.ring.tail then l.(ring := Pop(l.ring), taken := l.taken + [l.ring.buf[l.ring.tail]]) else l
  }

  function HandleAll(l: Line, events: seq<Event>): (l': Line)
    requires Good(l.ring)
    ensures Good(l'.ring)
    decreases |events|
  {
    if events == [] then l else HandleAll(Handle(l, events[0]), events[1..])
  }

  predicate InOrder(l: Line)
    requires Good(l.ring)
  {
    l.accepted == l.taken + Contents(l.ring)
  }

  lemma HandleInOrder(l: Line, e: Event)
    requires Good(l.ring) && InOrder(l)
    ensures InOrder(Handle(l, e))
  {
    hide Contents;
    match e
    case Arrives(c) => PushIsEnqueue(l.ring, c);
    case Take =>
      if l.ring.head != l.ring.tail {
        PopIsDequeue(l.ring);
      }
  }

  /** In any interleaving of interrupts and reads, the bytes read are a prefix, in order, of the bytes accepted, and the
      rest is what the ring holds. */
  lemma {:induction false} ReadsArePrefix(l: Line, events: seq<Event>)
    requires Good(l.ring) && InOrder(l)
    ensures
      var l' := HandleAll(l, events);
      InOrder(l') && l'.taken <= l'.accepted && |l'.accepted| - |l'.taken| <= Capacity(l'.ring)
    decreases |events|
  {
    hide Contents, Handle;
    if events == [] {
      PushIsEnqueue(l.ring, 0);
    } else {
      HandleInOrder(l, events[0]);
      ReadsArePrefix(Handle(l, events[0]), events[1..]);
    }
  }

  /** An arriving byte is lost exactly when the ring already holds its whole capacity. */
  lemma LostIffFull(l: Line, c: Byte)
    requires Good(l.ring)
    ensures Handle(l, Arrives(c)) == l <==> |Contents(l.ring)| == Capacity(l.ring)
  {
    hide Contents;
    PushIsEnqueue(l.ring, c);
    assert l.accepted + [c] != l.accepted;
  }

  // ---------- the mutable port ----------

  /** DEVICE_NO_DATA, in place of a byte. */
  datatype Char = NoData | Got(c: Byte)

  /** The byte of a getChar result, if there is one. */
  function Extra(r: Char): seq<Byte> {
    if r.Got? then [r.c] else []
  }

  /** What an ASYNC read of up to `room` bytes leaves behind when `waiting` bytes waited at its start and `quiet` says
      nothing more arrived: a byte is lost only on a full buffer, and without arrivals exactly if more waited than
      fitted. */
  predicate Outcome(waiting: nat, quiet: bool, room: nat, n: nat, lost: seq<Byte>) {
    && |lost| <= 1
    && (lost == [] ==> waiting <= n)
    && (lost != [] ==> n == room)
    && (quiet ==> (lost != [] <==> waiting > room))
    && (quiet && lost == [] ==> n == waiting)
  }

  lemma Associative<T>(a: seq<T>, b: seq<T>, c: seq<T>)
    ensures a + b + c == a + (b + c)
  {
  }

  lemma TakeMore<T>(s: seq<T>, n: nat)
    requires n < |s|
    ensures s[..n + 1] == s[..n] + [s[n]]
  {
  }

  lemma TakeJoin<T>(s: seq<T>, a: nat, b: nat)
    requires a <= b <= |s|
    ensures s[..a] + s[a..b] == s[..b]
  {
  }

  lemma ReadOutcome(t0: seq<Byte>, c0: seq<Byte>, t: seq<Byte>, c: seq<Byte>, got: seq<Byte>, r: Char, room: nat)
    requires t0 + c0 <= t + c && t == t0 + got + Extra(r) && |got| <= room
    requires r == NoData ==> c == []
    requires r.Got? ==> |got| == room
    ensures Outcome(|c0|, t0 + c0 == t + c, room, |got|, Extra(r))
  {
  }

  predicate NoneOf(delimiters: seq<Byte>, s: seq<Byte>) {
    forall b <- s :: b !in delimiters
  }

  /** Where the search stands after j of the waiting bytes: at most the last of them is a delimiter. */
  predicate Looked(delimiters: seq<Byte>, waiting: seq<Byte>, tail: nat, n: nat, foundIndex: int, j: nat)
    requires tail < n && j <= |waiting| < n
  {
    if foundIndex == -1 then NoneOf(delimiters, waiting[..j])
    else
      && j > 0 && foundIndex == Advance(tail, j - 1, n) && waiting[j - 1] in delimiters
      && NoneOf(delimiters, waiting[..j - 1])
  }

  lemma LookedNone(delimiters: seq<Byte>, waiting: seq<Byte>, tail: nat, n: nat)
    requires tail < n && |waiting| < n
    ensures Looked(delimiters, waiting, tail, n, -1, 0)
  {
  }

  lemma LookedOneMore(delimiters: seq<Byte>, seen: seq<Byte>, waiting: seq<Byte>, tail: nat, n: nat, foundIndex: int,
      j: nat)
    requires tail < n && 1 <= j <= |seen| < n && seen <= waiting && |waiting| < n
    requires Looked(delimiters, seen, tail, n, -1, j - 1)
    requires foundIndex == if seen[j - 1] in delimiters then Advance(tail, j - 1, n) else -1
    ensures Looked(delimiters, waiting, tail, n, foundIndex, j)
  {
    assert waiting[..j - 1] == seen[..j - 1];
    assert waiting[..j] == seen[..j - 1] + [seen[j - 1]];
  }

  lemma LookedEnough(delimiters: seq<Byte>, waiting: seq<Byte>, tail: nat, n: nat, foundIndex: int, j: nat)
    requires tail < n && j <= |waiting| < n && Looked(delimiters, waiting, tail, n, foundIndex, j)
    requires foundIndex == -1 ==> j == |waiting|
    ensures foundIndex == -1 ==> NoneOf(delimiters, waiting)
    ensures foundIndex != -1 ==>
      j > 0 && foundIndex == Advance(tail, j - 1, n) && waiting[j - 1] in delimiters
      && NoneOf(delimiters, waiting[..j - 1])
  {
    assert waiting[..|waiting|] == waiting;
  }

  lemma DiscardSplit(taken: seq<Byte>, seen: seq<Byte>, waiting: seq<Byte>, k: nat)
    requires seen <= waiting && k < |seen|
    ensures taken + waiting == taken + seen[..k] + [seen[k]] + waiting[k + 1..]
  {
    assert waiting == waiting[..k + 1] + waiting[k + 1..];
    Associative(taken, waiting[..k + 1], waiting[k + 1..]);
    assert waiting[..k + 1] == seen[..k] + [seen[k]];
    Associative(taken, seen[..k], [seen[k]]);
  }

  /** The ring without its first k + 1 bytes, of which `seen` was known. */
  lemma Discarded(r: Ring, taken: seq<Byte>, seen: seq<Byte>, k: nat)
    requires Good(r) && seen <= Contents(r) && k < |seen|
    ensures r.tail < |r.buf| && k + 1 <= |r.buf|
    ensures
      var r' := Ring(r.buf, r.head, Advance(r.tail, k + 1, |r.buf|));
      Good(r') && taken + Contents(r) == taken + seen[..k] + [seen[k]] + Contents(r')
  {
    hide Contents, Advance, BufferedSize;
    RoomFor(r, k + 1);
    DropMany(r, k + 1);
    DiscardSplit(taken, seen, Contents(r), k);
  }

  lemma RoomFor(r: Ring, k: nat)
    requires Good(r) && k <= |Contents(r)|
    ensures r.tail < |r.buf| && k < |r.buf|
  {
    hide Contents, Advance;
  }

  datatype Mode = Async | SpinWait

  datatype Sent = InUse | InvalidParameter | Written(n: nat)

  class SerialPort {
    const rxBuff: array<Byte>
    const txBuff: array<Byte>
    var rxHead: nat
    var rxTail: nat
    var txHead: nat
    var txTail: nat
    var rxInUse: bool
    var txInUse: bool
    var txAttached: bool
    ghost var accepted: seq<Byte>
    ghost var taken: seq<Byte>
    ghost var wire: seq<Byte>

    ghost predicate RingsOk()
      reads `rxHead, `rxTail, `txHead, `txTail, `accepted, `taken, rxBuff, txBuff
    {
      rxBuff != txBuff && Good(Rx()) && Good(Tx()) && accepted == taken + Contents(Rx())
    }

    /** Between calls the transmit interrupt is attached whenever there is something to send. */
    ghost predicate Valid()
      reads `rxHead, `rxTail, `txHead, `txTail, `accepted, `taken, `txAttached, rxBuff, txBuff
    {
      RingsOk() && (txHead != txTail ==> txAttached)
    }

    ghost function Rx(): Ring
      reads `rxHead, `rxTail, rxBuff
    {
      Ring(rxBuff[..], rxHead, rxTail)
    }

    ghost function Tx(): Ring
      reads `txHead, `txTail, txBuff
    {
      Ring(txBuff[..], txHead, txTail)
    }

    /** initialiseRx and initialiseTx, for buffer sizes below 255. */
    constructor (rxBufferSize: nat, txBufferSize: nat)
      requires rxBufferSize < 255 && txBufferSize < 255
      ensures Valid() && fresh(rxBuff) && fresh(txBuff) && !rxInUse && !txInUse
      ensures Capacity(Rx()) == rxBufferSize && Capacity(Tx()) == txBufferSize
      ensures accepted == taken == wire == []
    {
      rxBuff := new Byte[rxBufferSize + 1](_ => 0);
      txBuff := new Byte[txBufferSize + 1](_ => 0);
      rxHead, rxTail, txHead, txTail := 0, 0, 0, 0;
      rxInUse, txInUse, txAttached := false, false, false;
      accepted, taken, wire := [], [], [];
    }

    /** The receive interrupt. */
    method DataReceived(c: Byte)
      requires Valid()
      modifies this`rxHead, this`accepted, rxBuff
      ensures Valid() && Rx() == Push(old(Rx()), c)
      ensures accepted == if |Contents(old(Rx()))| < Capacity(old(Rx())) then old(accepted) + [c] else old(accepted)
    {
      hide Contents, Advance;
      PushIsEnqueue(Rx(), c);
      Associative(taken, Contents(Rx()), [c]);
      var newHead := Advance(rxHead, 1, rxBuff.Length);
      if newHead != rxTail {
        rxBuff[rxHead] := c;
        rxHead := newHead;
        accepted := accepted + [c];
      }
    }

    /** Whatever arrives while the caller is between two steps. */
    method ReceiveInterrupts()
      requires Valid()
      modifies this`rxHead, this`accepted, rxBuff
      ensures Valid() && old(accepted) <= accepted
      ensures old(Contents(Rx())) <= Contents(Rx())
    {
      var n: nat :| 0 <= n;
      for i := 0 to n
        invariant Valid() && old(accepted) <= accepted
        invariant old(Contents(Rx())) <= Contents(Rx())
      {
        var c: Byte :| 0 <= c < 0x100;
        PushIsEnqueue(Rx(), c);
        DataReceived(c);
      }
    }

    /** getChar in ASYNC mode. */
    method GetChar() returns (r: Char)
      requires Valid()
      modifies this`rxTail, this`taken
      ensures Valid() && accepted == old(accepted)
      ensures old(Contents(Rx())) == [] ==> r == NoData && taken == old(taken) && rxTail == old(rxTail)
      ensures old(Contents(Rx())) != [] ==> r == Got(old(Contents(Rx())[0])) && taken == old(taken) + [r.c]
      ensures old(Contents(Rx())) != [] ==> Contents(Rx()) == old(Contents(Rx()))[1..]
    {
      hide Contents, Advance;
      EmptyIff(Rx());
      if rxTail == rxHead { return NoData; }
      PopIsDequeue(Rx());
      var c := rxBuff[rxTail];
      rxTail := Advance(rxTail, 1, rxBuff.Length);
      taken := taken + [c];
      Associative(old(taken), [c], Contents(Rx()));
      r := Got(c);
    }

    /** The next byte of the caller's buffer. */
    method Store(buffer: array<Byte>, n: nat, c: Byte)
      requires n < buffer.Length
      modifies buffer
      ensures buffer[..n + 1] == old(buffer[..n]) + [c]
      ensures forall i :: n < i < buffer.Length ==> buffer[i] == old(buffer[i])
    {
      buffer[n] := c;
      TakeMore(buffer[..], n);
    }

    /** The loop of read: takes bytes until the buffer is full or nothing waits. */
    method ReadChars(buffer: array<Byte>) returns (n: nat, r: Char)
      requires Valid() && buffer != rxBuff && buffer != txBuff
      modifies this`rxHead, this`rxTail, this`accepted, this`taken, rxBuff, buffer
      ensures Valid() && old(accepted) <= accepted && n <= buffer.Length
      ensures taken == old(taken) + buffer[..n] + Extra(r)
      ensures if r == NoData then taken == accepted else n == buffer.Length
      ensures forall i :: n <= i < buffer.Length ==> buffer[i] == old(buffer[i])
    {
      hide Contents, Advance, Good;
      n := 0;
      r := GetChar();
      while r.Got? && n < buffer.Length
        invariant Valid() && n <= buffer.Length
        invariant old(accepted) <= accepted
        invariant taken == old(taken) + buffer[..n] + Extra(r)
        invariant forall i :: n <= i < buffer.Length ==> buffer[i] == old(buffer[i])
        invariant r == NoData ==> taken == accepted
        decreases buffer.Length - n
      {
        ghost var got := buffer[..n];
        Store(buffer, n, r.c);
        n := n + 1;
        Associative(old(taken), got, [r.c]);
        ReceiveInterrupts();
        r := GetChar();
      }
    }

    /** read in ASYNC mode: reads until the buffer is full or nothing waits. Interrupts may come between any two steps.
        The check for data comes before the check for room, so a byte that waits when the buffer is full is taken and
        `lost`. */
    method Read(buffer: array<Byte>) returns (busy: bool, n: nat, ghost lost: seq<Byte>)
      requires Valid() && buffer != rxBuff && buffer != txBuff
      modifies this`rxHead, this`rxTail, this`rxInUse, this`accepted, this`taken, rxBuff, buffer
      ensures Valid() && rxInUse == old(rxInUse)
      ensures busy == old(rxInUse)
      ensures busy ==> taken == old(taken) && accepted == old(accepted)
      ensures !busy ==>
        && old(accepted) <= accepted
        && n <= buffer.Length && taken == old(taken) + buffer[..n] + lost
        && (forall i :: n <= i < buffer.Length ==> buffer[i] == old(buffer[i]))
        && Outcome(|old(Contents(Rx()))|, accepted == old(accepted), buffer.Length, n, lost)
    {
      hide Contents, Advance, Outcome, Good;
      if rxInUse { return true, 0, []; }
      rxInUse := true;
      busy := false;
      var r;
      n, r := ReadChars(buffer);
      rxInUse := false;
      lost := Extra(r);
      ReadOutcome(old(taken), old(Contents(Rx())), taken, Contents(Rx()), buffer[..n], r, buffer.Length);
    }

    /** One byte of the copy: `seen` is what waited at first, of which i bytes have been copied. */
    method CopyOne(linearBuff: array<Byte>, i: nat, position: nat, ghost seen: seq<Byte>) returns (next: nat)
      requires Valid() && linearBuff != rxBuff && linearBuff != txBuff && i < linearBuff.Length
      requires i < |seen| && seen <= Contents(Rx()) && linearBuff[..i] == seen[..i]
      requires position == Advance(rxTail, i, rxBuff.Length)
      modifies this`rxHead, this`accepted, rxBuff, linearBuff
      ensures Valid() && old(accepted) <= accepted && seen <= Contents(Rx())
      ensures linearBuff[..i + 1] == seen[..i + 1] && i + 1 < rxBuff.Length
      ensures next == Advance(rxTail, i + 1, rxBuff.Length)
    {
      hide Contents, Advance;
      RoomFor(Rx(), i + 1);
      assert rxBuff[position] == seen[i];
      Store(linearBuff, i, rxBuff[position]);
      TakeMore(seen, i);
      DistanceBack(rxTail, i, rxBuff.Length);
      next := Advance(position, 1, rxBuff.Length);
      ReceiveInterrupts();
    }

    /** circularCopy on the receive buffer: the d bytes from tailPosition up to headPosition, while bytes keep
        arriving. */
    method CircularCopy(linearBuff: array<Byte>, tailPosition: nat, headPosition: nat, ghost d: nat)
      requires Valid() && linearBuff != rxBuff && linearBuff != txBuff
      requires d <= |Contents(Rx())| && d <= linearBuff.Length
      requires tailPosition == rxTail && headPosition == Advance(rxTail, d, rxBuff.Length)
      modifies this`rxHead, this`accepted, rxBuff, linearBuff
      ensures Valid() && old(accepted) <= accepted && old(Contents(Rx())) <= Contents(Rx())
      ensures linearBuff[..d] == old(Contents(Rx()))[..d]
    {
      hide Contents, Advance;
      var toBuffIndex := 0;
      var position := tailPosition;
      ghost var seen := Contents(Rx());
      RoomFor(Rx(), d);
      while position != headPosition
        invariant Valid() && old(accepted) <= accepted && seen <= Contents(Rx())
        invariant toBuffIndex <= d && position == Advance(rxTail, toBuffIndex, rxBuff.Length)
        invariant linearBuff[..toBuffIndex] == seen[..toBuffIndex]
        decreases d - toBuffIndex
      {
        position := CopyOne(linearBuff, toBuffIndex, position, seen);
        toBuffIndex := toBuffIndex + 1;
      }
      DistanceBack(rxTail, toBuffIndex, rxBuff.Length);
      DistanceBack(rxTail, d, rxBuff.Length);
    }

    /** The inner loop of readUntil: -1, or the position if the byte there is a delimiter. */
    method Match(c: Byte, position: nat, delimiters: seq<Byte>) returns (foundIndex: int)
      ensures foundIndex == if c in delimiters then position else -1
    {
      foundIndex := -1;
      for i := 0 to |delimiters|
        invariant foundIndex == if c in delimiters[..i] then position else -1
      {
        if delimiters[i] == c { foundIndex := position; }
      }
    }

    /** One step of the search: looks at the byte j after the tail, and moves on while bytes keep arriving. */
    method LookAt(delimiters: seq<Byte>, localTail: nat, ghost j: nat) returns (foundIndex: int, next: nat)
      requires Valid() && j < |Contents(Rx())| < rxBuff.Length && localTail == Advance(rxTail, j, rxBuff.Length)
      requires Looked(delimiters, Contents(Rx()), rxTail, rxBuff.Length, -1, j)
      modifies this`rxHead, this`accepted, rxBuff
      ensures Valid() && old(accepted) <= accepted && j + 1 <= |Contents(Rx())| < rxBuff.Length
      ensures next == Advance(rxTail, j + 1, rxBuff.Length)
      ensures Looked(delimiters, Contents(Rx()), rxTail, rxBuff.Length, foundIndex, j + 1)
    {
      hide Contents, Advance, NoneOf, Looked;
      DistanceBack(rxTail, j, rxBuff.Length);
      ghost var seen := Contents(Rx());
      foundIndex := Match(rxBuff[localTail], localTail, delimiters);
      next := Advance(localTail, 1, rxBuff.Length);
      ReceiveInterrupts();
      PushIsEnqueue(Rx(), 0);
      LookedOneMore(delimiters, seen, Contents(Rx()), rxTail, rxBuff.Length, foundIndex, j + 1);
    }

    /** The search of readUntil, with interrupts between its steps: the position of the first waiting delimiter, j - 1
        bytes after the tail, or -1 once all that wait have been looked at. */
    method Scan(delimiters: seq<Byte>) returns (foundIndex: int, ghost j: nat)
      requires Valid()
      modifies this`rxHead, this`accepted, rxBuff
      ensures Valid() && old(accepted) <= accepted && j <= |Contents(Rx())| < rxBuff.Length
      ensures Looked(delimiters, Contents(Rx()), rxTail, rxBuff.Length, foundIndex, j)
      ensures foundIndex == -1 ==> j == |Contents(Rx())|
    {
      hide Contents, Advance, NoneOf, Looked;
      var localTail := rxTail;
      foundIndex := -1;
      j := 0;
      PushIsEnqueue(Rx(), 0);
      LookedNone(delimiters, Contents(Rx()), rxTail, rxBuff.Length);
      while localTail != rxHead && foundIndex == -1
        invariant Valid() && old(accepted) <= accepted && j <= |Contents(Rx())| < rxBuff.Length
        invariant localTail == Advance(rxTail, j, rxBuff.Length)
        invariant Looked(delimiters, Contents(Rx()), rxTail, rxBuff.Length, foundIndex, j)
        decreases rxBuff.Length - j
      {
        HeadIsEnd(Rx(), j);
        foundIndex, localTail := LookAt(delimiters, localTail, j);
        j := j + 1;
      }
      HeadIsEnd(Rx(), j);
    }

    /** The bytes up to the delimiter found, copied out; the tail moves past the delimiter. */
    method TakeUpTo(preservedTail: nat, foundIndex: nat, ghost j: nat) returns (result: seq<Byte>)
      requires Valid() && preservedTail == rxTail && 0 < j <= |Contents(Rx())| < rxBuff.Length
      requires foundIndex == Advance(rxTail, j - 1, rxBuff.Length)
      modifies this`rxHead, this`rxTail, this`accepted, this`taken, rxBuff
      ensures Valid() && old(accepted) <= accepted && result == old(Contents(Rx()))[..j - 1]
      ensures taken == old(taken) + result + [old(Contents(Rx()))[j - 1]]
    {
      hide Contents, Advance;
      DistanceBack(rxTail, j - 1, rxBuff.Length);
      var localBuffSize := Distance(preservedTail, foundIndex, rxBuff.Length);
      var localBuff := new Byte[localBuffSize + 1](_ => 0);
      ghost var seen := Contents(Rx());
      CircularCopy(localBuff, preservedTail, foundIndex, j - 1);
      Discard(localBuffSize, seen);
      result := localBuff[..localBuffSize];
    }

    /** readUntil in ASYNC mode: the bytes before the first delimiter that waits, which is consumed too; if none waits,
        nothing is taken. */
    method ReadUntil(delimiters: seq<Byte>) returns (result: seq<Byte>, ghost found: bool)
      requires Valid()
      modifies this`rxHead, this`rxTail, this`rxInUse, this`accepted, this`taken, rxBuff
      ensures Valid() && rxInUse == old(rxInUse) && old(accepted) <= accepted
      ensures old(rxInUse) ==> !found && accepted == old(accepted)
      ensures !found ==> result == [] && taken == old(taken)
      ensures !found && !rxInUse ==> NoneOf(delimiters, Contents(Rx()))
      ensures found ==> exists d <- delimiters :: taken == old(taken) + result + [d]
      ensures NoneOf(delimiters, result)
    {
      hide Contents, Advance, NoneOf, Looked;
      Nothing(delimiters);
      if rxInUse { return [], false; }
      rxInUse := true;
      var preservedTail := rxTail;
      ghost var j;
      var foundIndex;
      foundIndex, j := Scan(delimiters);
      LookedEnough(delimiters, Contents(Rx()), rxTail, rxBuff.Length, foundIndex, j);
      result := [];
      found := foundIndex >= 0;
      if foundIndex >= 0 {
        result := TakeUpTo(preservedTail, foundIndex, j);
      }
      rxInUse := false;
    }

    lemma Nothing(delimiters: seq<Byte>)
      ensures NoneOf(delimiters, [])
    {
    }

    /** Moves the tail past k bytes and the delimiter after them. */
    method Discard(k: nat, ghost seen: seq<Byte>)
      requires Valid() && k < |seen| && seen <= Contents(Rx())
      modifies this`rxTail, this`taken
      ensures Valid() && taken == old(taken) + seen[..k] + [seen[k]]
    {
      hide Contents, Advance;
      Discarded(Rx(), taken, seen, k);
      rxTail := Advance(rxTail, k + 1, rxBuff.Length);
      taken := taken + seen[..k] + [seen[k]];
    }

    /** The transmit interrupt: sends the oldest byte and detaches itself when that was the last. */
    method DataWritten()
      requires RingsOk()
      modifies this`txTail, this`txAttached, this`wire
      ensures RingsOk()
      ensures old(Contents(Tx())) == [] ==> Contents(Tx()) == [] && wire == old(wire) && txAttached == old(txAttached)
      ensures old(Contents(Tx())) != [] ==>
        && wire == old(wire) + [old(Contents(Tx()))[0]] && Contents(Tx()) == old(Contents(Tx()))[1..]
        && txAttached == (old(txAttached) && Contents(Tx()) != [])
    {
      hide Contents, Advance;
      EmptyIff(Tx());
      if txTail == txHead { return; }
      PopIsDequeue(Tx());
      wire := wire + [txBuff[txTail]];
      var nextTail := Advance(txTail, 1, txBuff.Length);
      if nextTail == txHead {
        txAttached := false;
      }
      txTail := nextTail;
      EmptyIff(Tx());
    }

    /** Everything handed to the transmitter, sent or waiting, in order. */
    ghost function Outgoing(): seq<Byte>
      requires Good(Tx())
      reads `wire, `txHead, `txTail, txBuff
    {
      wire + Contents(Tx())
    }

    /** Any number of transmit interrupts, which come only while attached. */
    method TransmitInterrupts()
      requires RingsOk()
      modifies this`txTail, this`txAttached, this`wire
      ensures RingsOk() && Outgoing() == old(Outgoing()) && |Contents(Tx())| <= old(|Contents(Tx())|)
      ensures txAttached != old(txAttached) ==> Contents(Tx()) == []
    {
      hide Contents, Advance;
      var n: nat :| 0 <= n;
      for i := 0 to n
        invariant RingsOk() && Outgoing() == old(Outgoing()) && |Contents(Tx())| <= old(|Contents(Tx())|)
        invariant txAttached != old(txAttached) ==> Contents(Tx()) == []
      {
        if txAttached {
          SentOne();
        }
      }
    }

    /** One transmit interrupt moves a byte from the ring to the wire, if there is one. */
    method SentOne()
      requires RingsOk()
      modifies this`txTail, this`txAttached, this`wire
      ensures RingsOk() && Outgoing() == old(Outgoing())
      ensures |Contents(Tx())| == if old(Contents(Tx())) == [] then 0 else old(|Contents(Tx())|) - 1
      ensures txAttached != old(txAttached) ==> Contents(Tx()) == []
    {
      hide Contents, Advance;
      ghost var waiting := Contents(Tx());
      DataWritten();
      if waiting != [] {
        Associative(old(wire), [waiting[0]], Contents(Tx()));
        assert waiting == [waiting[0]] + waiting[1..];
      }
    }

    /** setTxInterrupt on buffer[offset..bufferLen]: copies what fits while the transmitter may be draining, then
        attaches. */
    method SetTxInterrupt(buffer: array<Byte>, offset: nat, bufferLen: nat) returns (copied: nat)
      requires RingsOk() && offset <= bufferLen <= buffer.Length && buffer != txBuff && buffer != rxBuff
      modifies this`txHead, this`txTail, this`txAttached, this`wire, txBuff
      ensures RingsOk() && txAttached && copied <= bufferLen - offset
      ensures Outgoing() == old(Outgoing()) + buffer[offset..offset + copied]
      ensures copied < bufferLen - offset ==> old(|Contents(Tx())|) + copied >= Capacity(Tx())
    {
      hide Contents, Advance;
      copied := 0;
      while copied < bufferLen - offset
        invariant RingsOk() && copied <= bufferLen - offset
        invariant Outgoing() == old(Outgoing()) + buffer[offset..offset + copied]
        invariant |Contents(Tx())| <= old(|Contents(Tx())|) + copied
      {
        var c := buffer[offset + copied];
        PushIsEnqueue(Tx(), c);
        var nextHead := Advance(txHead, 1, txBuff.Length);
        if nextHead != txTail {
          Associative(wire, Contents(Tx()), [c]);
          Associative(old(Outgoing()), buffer[offset..offset + copied], [c]);
          assert buffer[offset..offset + copied] + [c] == buffer[offset..offset + copied + 1];
          txBuff[txHead] := c;
          txHead := nextHead;
        } else {
          break;
        }
        copied := copied + 1;
        TransmitInterrupts();
      }
      txAttached := true;
    }

    /** send(SYNC_SPINWAIT): polls until the ring is empty. Transmit interrupts come only while attached; an attached
        one is taken to fire at least once between two polls. */
    method SpinUntilSent()
      requires RingsOk() && (Contents(Tx()) != [] ==> txAttached)
      modifies this`txTail, this`txAttached, this`wire
      ensures RingsOk() && Contents(Tx()) == [] && txHead == txTail && wire == old(Outgoing())
    {
      hide Contents, Advance;
      while Distance(txTail, txHead, txBuff.Length) > 0
        invariant RingsOk() && Outgoing() == old(Outgoing()) && (Contents(Tx()) != [] ==> txAttached)
        decreases |Contents(Tx())|
      {
        if txAttached {
          SentOne();
        }
        TransmitInterrupts();
      }
      EmptyIff(Tx());
      assert wire + [] == wire;
    }

    /** One pass of send: queues what fits and, with SYNC_SPINWAIT, waits until it is sent. */
    method SendSome(buffer: array<Byte>, offset: nat, bufferLen: nat, mode: Mode) returns (copied: nat)
      requires RingsOk() && offset <= bufferLen <= buffer.Length && buffer != txBuff && buffer != rxBuff
      modifies this`txHead, this`txTail, this`txAttached, this`wire, txBuff
      ensures RingsOk() && (txHead != txTail ==> txAttached) && copied <= bufferLen - offset
      ensures Outgoing() == old(Outgoing()) + buffer[offset..offset + copied]
      ensures copied < bufferLen - offset ==> old(|Contents(Tx())|) + copied >= Capacity(Tx())
      ensures mode == SpinWait ==> Contents(Tx()) == [] && wire == Outgoing()
    {
      hide Contents, Advance, Good;
      copied := SetTxInterrupt(buffer, offset, bufferLen);
      if mode == SpinWait {
        SpinUntilSent();
        assert wire + [] == wire;
      }
    }

    /** send of a caller's buffer. With SYNC_SPINWAIT every byte is on the wire when it returns, in order and once,
        however much longer than the ring the buffer is; with ASYNC a prefix is queued, the whole if it fits. */
    method Send(buffer: array?<Byte>, bufferLen: int, mode: Mode) returns (r: Sent)
      requires Valid() && (buffer != null ==> bufferLen <= buffer.Length && buffer != rxBuff && buffer != txBuff)
      requires mode == SpinWait ==> Capacity(Tx()) >= 1
      modifies this`txHead, this`txTail, this`txAttached, this`txInUse, this`wire, txBuff
      ensures Valid() && txInUse == old(txInUse)
      ensures r == InUse <==> old(txInUse)
      ensures r == InvalidParameter <==> !old(txInUse) && (bufferLen <= 0 || buffer == null)
      ensures !r.Written? ==> Outgoing() == old(Outgoing()) && wire == old(wire)
      ensures r.Written? ==> r.n <= bufferLen && Outgoing() == old(Outgoing()) + buffer[..r.n]
      ensures r.Written? && mode == SpinWait ==>
        r.n == bufferLen && Contents(Tx()) == [] && wire == old(Outgoing()) + buffer[..bufferLen]
      ensures r.Written? && r.n < bufferLen ==> old(|Contents(Tx())|) + r.n >= Capacity(Tx())
    {
      hide Contents, Advance, Good;
      if txInUse { return InUse; }
      if bufferLen <= 0 || buffer == null { return InvalidParameter; }
      txInUse := true;
      var complete := false;
      var bytesWritten := 0;
      while !complete
        invariant RingsOk() && 0 <= bytesWritten <= bufferLen && txInUse && (txHead != txTail ==> txAttached)
        invariant Outgoing() == old(Outgoing()) + buffer[..bytesWritten]
        invariant mode == Async && !complete ==> bytesWritten == 0 && Contents(Tx()) == old(Contents(Tx()))
        invariant mode == Async && bytesWritten < bufferLen && complete ==>
          old(|Contents(Tx())|) + bytesWritten >= Capacity(Tx())
        invariant mode == SpinWait && bytesWritten > 0 ==> Contents(Tx()) == [] && wire == Outgoing()
        invariant mode == SpinWait && complete ==> bytesWritten == bufferLen > 0
        decreases if complete then 0 else 1, bufferLen - bytesWritten, |Contents(Tx())|
      {
        var copied := SendSome(buffer, bytesWritten, bufferLen, mode);
        Associative(old(Outgoing()), buffer[..bytesWritten], buffer[bytesWritten..bytesWritten + copied]);
        TakeJoin(buffer[..], bytesWritten, bytesWritten + copied);
        bytesWritten := bytesWritten + copied;
        if mode == Async || bytesWritten >= bufferLen {
          complete := true;
        }
      }
      txInUse := false;
      r := Written(bytesWritten);
    }
  }
}
